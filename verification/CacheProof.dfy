/** What every run of the cache keeps: agreement with a plain map, the bounds, the order, and the
    exact books. */
module CacheProof {
  import opened Ast
  import opened BoundedCache

  datatype Op<K, V> = GetOp(k: K) | SetOp(k: K, v: V, w: Number) | DeleteOp(k: K) | ClearOp

  function Apply<K(==), V>(o: Options, s: State<K, V>, op: Op<K, V>): State<K, V> {
    match op
    case GetOp(k) => Get(o, s, k).0
    case SetOp(k, v, w) => Set(o, s, k, v, w).0
    case DeleteOp(k) => Delete(s, k).0
    case ClearOp => Clear(s)
  }

  /** State after a run from an empty cache. */
  function Run<K(==), V>(o: Options, ops: seq<Op<K, V>>): State<K, V> {
    if ops == [] then Empty() else Apply(o, Run(o, ops[..|ops| - 1]), ops[|ops| - 1])
  }

  predicate Admits<K, V>(o: Options, op: Op<K, V>) {
    op.SetOp? && o.enabled && !Oversize(o, op.w)
  }

  /** What a plain map would hold: the last admitted value, unless it was deleted, cleared away or
      followed by a refused offer. */
  function Latest<K(==), V>(o: Options, ops: seq<Op<K, V>>, k: K): Option<V> {
    if ops == [] then None
    else
      var op, before := ops[|ops| - 1], ops[..|ops| - 1];
      match op
      case GetOp(_) => Latest(o, before, k)
      case SetOp(k', v, w) =>
        if k' != k || !o.enabled then Latest(o, before, k) else if Oversize(o, w) then None else Some(v)
      case DeleteOp(k') => if k' == k then None else Latest(o, before, k)
      case ClearOp => None
  }

  /** The run `ops[..|ops|]` ends by touching `k`: an admitted set, or a hit. */
  predicate Touches<K(==), V>(o: Options, ops: seq<Op<K, V>>, k: K)
    requires ops != []
  {
    var op := ops[|ops| - 1];
    match op
    case SetOp(k', _, _) => k' == k && Admits(o, op)
    case GetOp(k') => k' == k && o.enabled && Has(Run(o, ops[..|ops| - 1]).entries, k)
    case _ => false
  }

  /** When `k` was last touched, counting operations from 1; 0 when never. */
  function LastTouch<K(==), V>(o: Options, ops: seq<Op<K, V>>, k: K): nat {
    if ops == [] then 0
    else if Touches(o, ops, k) then |ops|
    else LastTouch(o, ops[..|ops| - 1], k)
  }

  /** Weight that left with residents refused as oversize, since the last clear: it is never taken
      off the books. */
  function Drift<K(==), V>(o: Options, ops: seq<Op<K, V>>): real {
    if ops == [] then 0.0
    else DriftStep(o, Run(o, ops[..|ops| - 1]), ops[|ops| - 1], Drift(o, ops[..|ops| - 1]))
  }

  function DriftStep<K(==), V>(o: Options, s: State<K, V>, op: Op<K, V>, d: real): real {
    match op
    case ClearOp => 0.0
    case SetOp(k, v, w) => if o.enabled && Oversize(o, w) then d + ResidentWeight(s, k) else d
    case _ => d
  }

  function ResidentWeight<K(==), V>(s: State<K, V>, k: K): real {
    var i := Index(s.entries, k);
    if i < |s.entries| then s.entries[i].weight else 0.0
  }

  /** Tombstones taken back by a new set, a delete or a clear. */
  function Withdrawn<K(==), V>(o: Options, ops: seq<Op<K, V>>): nat {
    if ops == [] then 0
    else Withdrawn(o, ops[..|ops| - 1]) + WithdrawnStep(o, Run(o, ops[..|ops| - 1]), ops[|ops| - 1])
  }

  function WithdrawnStep<K(==), V>(o: Options, s: State<K, V>, op: Op<K, V>): nat {
    match op
    case ClearOp => |s.tombs|
    case DeleteOp(k) => if TombIndex(s.tombs, k) < |s.tombs| then 1 else 0
    case SetOp(k, _, _) => if Admits(o, op) && TombIndex(s.tombs, k) < |s.tombs| then 1 else 0
    case GetOp(_) => 0
  }

  function Sum<K, V>(es: seq<Entry<K, V>>): real {
    if es == [] then 0.0 else es[0].weight + Sum(es[1..])
  }

  lemma {:induction false} SumConcat<K, V>(a: seq<Entry<K, V>>, b: seq<Entry<K, V>>)
    ensures Sum(a + b) == Sum(a) + Sum(b)
  {
    if a == [] {
      assert a + b == b;
    } else {
      assert (a + b)[1..] == a[1..] + b;
      SumConcat(a[1..], b);
    }
  }

  // ----- The invariant -----

  ghost predicate DistinctKeys<K, V>(es: seq<Entry<K, V>>) {
    forall i, j :: 0 <= i < j < |es| ==> es[i].key != es[j].key
  }

  ghost predicate WeightsFit<K, V>(o: Options, es: seq<Entry<K, V>>) {
    forall i :: 0 <= i < |es| ==> 0.0 <= es[i].weight <= o.maxItemWeight
  }

  ghost predicate DistinctTombs<K, V>(es: seq<Entry<K, V>>, ts: seq<Tomb<K>>, evictions: nat) {
    && (forall i, j :: 0 <= i < j < |ts| ==> ts[i].key != ts[j].key && ts[i].evictedAt < ts[j].evictedAt)
    && (forall i :: 0 <= i < |ts| ==> ts[i].evictedAt <= evictions)
    && forall i, j :: 0 <= i < |es| && 0 <= j < |ts| ==> es[i].key != ts[j].key
  }

  /** Keys, weights, tombstones and books, without the two size bounds. */
  ghost predicate Books<K, V>(o: Options, s: State<K, V>, drift: real, withdrawn: nat) {
    && DistinctKeys(s.entries) && WeightsFit(o, s.entries) && DistinctTombs(s.entries, s.tombs, s.evictions)
    && s.weight == Sum(s.entries) + drift && 0.0 <= drift <= o.maxWeight
    && |s.tombs| as real <= o.maxTombstones
    && (o.maxTombstones > 0.0 ==> s.evictions == |s.tombs| + s.forgotten + withdrawn)
    && (!o.enabled ==> s.entries == [])
  }

  ghost predicate Bounded<K, V>(o: Options, s: State<K, V>) {
    |s.entries| as real <= o.maxEntries && s.weight <= o.maxWeight
  }

  lemma {:induction false} SumNonNegative<K, V>(o: Options, es: seq<Entry<K, V>>)
    requires WeightsFit(o, es)
    ensures Sum(es) >= 0.0
  {
    if es != [] {
      assert es[0].weight >= 0.0;
      SumNonNegative(o, es[1..]);
    }
  }

  // ----- Eviction -----

  lemma EvictOldestKeeps<K, V>(o: Options, s: State<K, V>, drift: real, withdrawn: nat)
    requires o.Valid() && Books(o, s, drift, withdrawn) && s.entries != []
    ensures Books(o, EvictOldest(o, s), drift, withdrawn)
  {
    hide DistinctTombs, TrimTombs;
    BuryKeepsEntries(o, s);
    BuryKeepsTombs(o, s);
  }

  lemma BuryKeepsTombs<K, V>(o: Options, s: State<K, V>)
    requires o.Valid() && s.entries != [] && DistinctKeys(s.entries) && DistinctTombs(s.entries, s.tombs, s.evictions)
    requires |s.tombs| as real <= o.maxTombstones
    ensures var t := EvictOldest(o, s);
            && DistinctTombs(t.entries, t.tombs, t.evictions) && |t.tombs| as real <= o.maxTombstones
            && (o.maxTombstones > 0.0 ==> t.forgotten + |t.tombs| == s.forgotten + |s.tombs| + 1)
  {
    hide TrimTombs;
    var e := s.entries[0];
    var t := s.(entries := s.entries[1..], weight := s.weight - e.weight, evictions := s.evictions + 1);
    BuryKeepsEntries(o, s);
    NewestTomb(s.entries, s.tombs, s.evictions, e.weight);
    if o.maxTombstones > 0.0 {
      assert TombIndex(s.tombs, e.key) == |s.tombs|;
      var u := t.(tombs := t.tombs + [Tomb(e.key, e.weight, t.evictions)]);
      TrimKeeps(o, u);
      SuffixTombs(u.entries, u.tombs, u.evictions, |u.tombs| - |TrimTombs(o, u).tombs|);
    }
  }

  lemma NewestTomb<K, V>(es: seq<Entry<K, V>>, ts: seq<Tomb<K>>, evictions: nat, w: real)
    requires es != [] && DistinctKeys(es) && DistinctTombs(es, ts, evictions)
    ensures DistinctTombs(es[1..], ts, evictions + 1)
    ensures DistinctTombs(es[1..], ts + [Tomb(es[0].key, w, evictions + 1)], evictions + 1)
  {
  }

  lemma SuffixTombs<K, V>(es: seq<Entry<K, V>>, ts: seq<Tomb<K>>, evictions: nat, n: nat)
    requires n <= |ts| && DistinctTombs(es, ts, evictions)
    ensures DistinctTombs(es, ts[n..], evictions)
  {
  }

  /** Eviction stops with both bounds met; it never finds the cache empty and still overfull. */
  lemma {:induction false} EvictKeeps<K, V>(o: Options, s: State<K, V>, drift: real, withdrawn: nat)
    requires o.Valid() && Books(o, s, drift, withdrawn)
    ensures Books(o, EvictToFit(o, s), drift, withdrawn) && Bounded(o, EvictToFit(o, s))
    decreases |s.entries|
  {
    hide Books, EvictOldest;
    if Overfull(o, s) && s.entries != [] {
      BuryKeepsEntries(o, s);
      EvictOldestKeeps(o, s, drift, withdrawn);
      EvictKeeps(o, EvictOldest(o, s), drift, withdrawn);
    } else {
      EmptyFits(o, s, drift, withdrawn);
    }
  }

  lemma EmptyFits<K, V>(o: Options, s: State<K, V>, drift: real, withdrawn: nat)
    requires o.Valid() && Books(o, s, drift, withdrawn) && (Overfull(o, s) ==> s.entries == [])
    ensures Bounded(o, s)
  {
  }

  /** Eviction removes the oldest entries, and no more of them than the bounds require. */
  lemma {:induction false} EvictsShortestPrefix<K, V>(o: Options, s: State<K, V>) returns (n: nat)
    ensures n <= |s.entries| && EvictToFit(o, s).entries == s.entries[n..]
    ensures EvictToFit(o, s).weight == s.weight - Sum(s.entries[..n])
    ensures forall m :: 0 <= m < n ==>
              |s.entries| - m > 0 && (((|s.entries| - m) as real) > o.maxEntries || s.weight - Sum(s.entries[..m]) > o.maxWeight)
    decreases |s.entries|
  {
    if Overfull(o, s) && s.entries != [] {
      BuryKeepsEntries(o, s);
      var t := EvictOldest(o, s);
      var rest := EvictsShortestPrefix(o, t);
      n := rest + 1;
      forall m | 0 <= m < n
        ensures ((|s.entries| - m) as real) > o.maxEntries || s.weight - Sum(s.entries[..m]) > o.maxWeight
      {
        if m > 0 {
          PrefixSum(s.entries, m);
          assert ((|t.entries| - (m - 1)) as real) > o.maxEntries || t.weight - Sum(t.entries[..m - 1]) > o.maxWeight;
        }
      }
      PrefixSum(s.entries, n);
      assert s.entries[n..] == t.entries[rest..];
    } else {
      n := 0;
    }
  }

  lemma PrefixSum<K, V>(es: seq<Entry<K, V>>, m: nat)
    requires 0 < m <= |es|
    ensures Sum(es[..m]) == es[0].weight + Sum(es[1..][..m - 1])
  {
    assert es[..m][1..] == es[1..][..m - 1];
  }

  // ----- Every operation keeps the books -----

  /** Which entry of the list stands at place `i` once the key is gone. */
  function Place<K(==), V>(es: seq<Entry<K, V>>, k: K, i: nat): nat { if i < Index(es, k) then i else i + 1 }

  lemma WithoutPlace<K, V>(es: seq<Entry<K, V>>, k: K, i: nat)
    requires i < |Without(es, k)|
    ensures var p := Place(es, k, i); p < |es| && Without(es, k)[i] == es[p] && p != Index(es, k)
  {
  }

  lemma WithoutLength<K, V>(es: seq<Entry<K, V>>, k: K)
    ensures |Without(es, k)| == |es| - (if Has(es, k) then 1 else 0)
  {
  }

  lemma WithoutDistinct<K, V>(es: seq<Entry<K, V>>, k: K)
    requires DistinctKeys(es)
    ensures DistinctKeys(Without(es, k))
    ensures forall i :: 0 <= i < |Without(es, k)| ==> Without(es, k)[i].key != k && Without(es, k)[i] in es
  {
    hide Without;
    forall i | 0 <= i < |Without(es, k)| ensures Without(es, k)[i].key != k && Without(es, k)[i] in es {
      WithoutPlace(es, k, i);
      OnlyAtIndex(es, k, Place(es, k, i));
    }
    forall i, j | 0 <= i < j < |Without(es, k)| ensures Without(es, k)[i].key != Without(es, k)[j].key {
      WithoutPlace(es, k, i);
      WithoutPlace(es, k, j);
      assert Place(es, k, i) < Place(es, k, j);
    }
  }

  lemma OnlyAtIndex<K, V>(es: seq<Entry<K, V>>, k: K, p: nat)
    requires DistinctKeys(es) && p < |es| && p != Index(es, k)
    ensures es[p].key != k
  {
  }

  lemma WithoutFacts<K, V>(o: Options, es: seq<Entry<K, V>>, k: K)
    requires DistinctKeys(es) && WeightsFit(o, es)
    ensures DistinctKeys(Without(es, k)) && WeightsFit(o, Without(es, k))
    ensures forall i :: 0 <= i < |Without(es, k)| ==> Without(es, k)[i].key != k && Without(es, k)[i] in es
    ensures Sum(Without(es, k)) == Sum(es) - (if Has(es, k) then es[Index(es, k)].weight else 0.0)
    ensures |Without(es, k)| == |es| - (if Has(es, k) then 1 else 0)
  {
    hide Sum, Without, DistinctKeys;
    WithoutSum(es, k);
    WithoutLength(es, k);
    WithoutDistinct(es, k);
  }

  lemma WithoutSum<K, V>(es: seq<Entry<K, V>>, k: K)
    ensures Sum(Without(es, k)) == Sum(es) - (if Has(es, k) then es[Index(es, k)].weight else 0.0)
  {
    var i := Index(es, k);
    if i < |es| {
      SumConcat(es[..i], es[i + 1..]);
      SumConcat(es[..i], es[i..]);
      assert es == es[..i] + es[i..] && es[i..][1..] == es[i + 1..];
    }
  }

  lemma TombsWithoutFacts<K, V>(es: seq<Entry<K, V>>, ts: seq<Tomb<K>>, evictions: nat, k: K)
    requires DistinctTombs(es, ts, evictions)
    ensures DistinctTombs(es, TombsWithout(ts, k), evictions)
    ensures forall i :: 0 <= i < |TombsWithout(ts, k)| ==> TombsWithout(ts, k)[i].key != k
    ensures |TombsWithout(ts, k)| == |ts| - (if TombIndex(ts, k) < |ts| then 1 else 0)
  {
    var i := TombIndex(ts, k);
    if i < |ts| { TombDropped(es, ts, evictions, i); }
  }

  lemma TombDropped<K, V>(es: seq<Entry<K, V>>, ts: seq<Tomb<K>>, evictions: nat, i: nat)
    requires DistinctTombs(es, ts, evictions) && i < |ts|
    ensures DistinctTombs(es, ts[..i] + ts[i + 1..], evictions)
    ensures forall t :: t in ts[..i] + ts[i + 1..] ==> t.key != ts[i].key
  {
    var rest := ts[..i] + ts[i + 1..];
    assert forall j :: 0 <= j < |rest| ==> rest[j] == ts[if j < i then j else j + 1];
  }

  lemma FewerEntries<K, V>(es: seq<Entry<K, V>>, fewer: seq<Entry<K, V>>, ts: seq<Tomb<K>>, evictions: nat)
    requires DistinctTombs(es, ts, evictions) && forall i :: 0 <= i < |fewer| ==> fewer[i] in es
    ensures DistinctTombs(fewer, ts, evictions)
  {
  }

  lemma AppendEntry<K, V>(o: Options, es: seq<Entry<K, V>>, ts: seq<Tomb<K>>, evictions: nat, e: Entry<K, V>)
    requires DistinctKeys(es) && WeightsFit(o, es) && DistinctTombs(es, ts, evictions)
    requires forall i :: 0 <= i < |es| ==> es[i].key != e.key
    requires forall i :: 0 <= i < |ts| ==> ts[i].key != e.key
    requires 0.0 <= e.weight <= o.maxItemWeight
    ensures DistinctKeys(es + [e]) && WeightsFit(o, es + [e]) && DistinctTombs(es + [e], ts, evictions)
    ensures Sum(es + [e]) == Sum(es) + e.weight
  {
    SumConcat(es, [e]);
    assert [e][1..] == [];
  }

  lemma GetKeeps<K, V>(o: Options, s: State<K, V>, k: K, drift: real, withdrawn: nat)
    requires o.Valid() && Books(o, s, drift, withdrawn) && Bounded(o, s)
    ensures Books(o, Get(o, s, k).0, drift, withdrawn) && Bounded(o, Get(o, s, k).0)
  {
    if o.enabled && Has(s.entries, k) {
      var e := s.entries[Index(s.entries, k)];
      WithoutFacts(o, s.entries, k);
      FewerEntries(s.entries, Without(s.entries, k), s.tombs, s.evictions);
      hide Without, Sum, DistinctTombs, DistinctKeys, WeightsFit;
      EntryFacts(o, s.entries, s.tombs, s.evictions, Index(s.entries, k));
      AppendEntry(o, Without(s.entries, k), s.tombs, s.evictions, e);
    }
  }

  lemma EntryFacts<K, V>(o: Options, es: seq<Entry<K, V>>, ts: seq<Tomb<K>>, evictions: nat, i: nat)
    requires i < |es| && WeightsFit(o, es) && DistinctTombs(es, ts, evictions)
    ensures 0.0 <= es[i].weight <= o.maxItemWeight && forall j :: 0 <= j < |ts| ==> ts[j].key != es[i].key
  {
  }

  lemma AdmitKeeps<K, V>(o: Options, s: State<K, V>, k: K, v: V, w: real, drift: real, withdrawn: nat)
    requires o.Valid() && o.enabled && Books(o, s, drift, withdrawn) && 0.0 <= w <= o.maxItemWeight
    ensures Books(o, Admit(s, k, v, w), drift, withdrawn + if TombIndex(s.tombs, k) < |s.tombs| then 1 else 0)
  {
    hide Without, TombsWithout, Sum, DistinctTombs, DistinctKeys, WeightsFit;
    WithoutFacts(o, s.entries, k);
    FewerEntries(s.entries, Without(s.entries, k), s.tombs, s.evictions);
    TombsWithoutFacts(Without(s.entries, k), s.tombs, s.evictions, k);
    AppendEntry(o, Without(s.entries, k), TombsWithout(s.tombs, k), s.evictions, Entry(k, v, w));
  }

  lemma RefuseKeeps<K, V>(o: Options, s: State<K, V>, k: K, drift: real, withdrawn: nat)
    requires o.Valid() && Books(o, s, drift, withdrawn) && Bounded(o, s)
    ensures var t := s.(refused := s.refused + 1, entries := Without(s.entries, k));
            Books(o, t, drift + ResidentWeight(s, k), withdrawn) && Bounded(o, t)
  {
    hide Without, Sum, DistinctTombs, DistinctKeys, WeightsFit;
    WithoutFacts(o, s.entries, k);
    FewerEntries(s.entries, Without(s.entries, k), s.tombs, s.evictions);
    SumNonNegative(o, Without(s.entries, k));
    DeletedWeight(o, s, k);
  }

  lemma DeleteKeeps<K, V>(o: Options, s: State<K, V>, k: K, drift: real, withdrawn: nat)
    requires o.Valid() && Books(o, s, drift, withdrawn) && Bounded(o, s)
    ensures Books(o, Delete(s, k).0, drift, withdrawn + if TombIndex(s.tombs, k) < |s.tombs| then 1 else 0)
    ensures Bounded(o, Delete(s, k).0)
  {
    hide Without, TombsWithout, Sum, DistinctTombs, DistinctKeys, WeightsFit;
    WithoutFacts(o, s.entries, k);
    TombsWithoutFacts(s.entries, s.tombs, s.evictions, k);
    FewerEntries(s.entries, Without(s.entries, k), TombsWithout(s.tombs, k), s.evictions);
    DeletedWeight(o, s, k);
  }

  lemma DeletedWeight<K, V>(o: Options, s: State<K, V>, k: K)
    requires WeightsFit(o, s.entries)
    ensures ResidentWeight(s, k) >= 0.0
  {
  }

  /** After every run: the bounds hold, residents and tombstones are disjoint, tombstones stay
      within their ceiling in eviction order, evictions are all accounted for, and the recorded
      weight is the residents' sum plus the drift of the refused residents. */
  lemma {:induction false} RunKeepsBooks<K, V>(o: Options, ops: seq<Op<K, V>>)
    requires o.Valid()
    ensures Books(o, Run(o, ops), Drift(o, ops), Withdrawn(o, ops)) && Bounded(o, Run(o, ops))
  {
    if ops != [] {
      var before, op := ops[..|ops| - 1], ops[|ops| - 1];
      var s, d, n := Run(o, before), Drift(o, before), Withdrawn(o, before);
      RunKeepsBooks(o, before);
      StepKeepsBooks(o, s, op, d, n);
    }
  }

  lemma StepKeepsBooks<K, V>(o: Options, s: State<K, V>, op: Op<K, V>, d: real, n: nat)
    requires o.Valid() && Books(o, s, d, n) && Bounded(o, s)
    ensures Books(o, Apply(o, s, op), DriftStep(o, s, op, d), n + WithdrawnStep(o, s, op)) && Bounded(o, Apply(o, s, op))
  {
    hide EvictToFit, Get, Delete, Without, Admit;
    match op
    case GetOp(k) => GetKeeps(o, s, k, d, n);
    case SetOp(k, v, w) =>
      hide Books, Bounded;
      if o.enabled {
        if Oversize(o, w) {
          RefuseKeeps(o, s, k, d, n);
        } else {
          AdmitKeeps(o, s, k, v, w.value, d, n);
          EvictKeeps(o, Admit(s, k, v, w.value), d, n + WithdrawnStep(o, s, op));
        }
      }
    case DeleteOp(k) => DeleteKeeps(o, s, k, d, n);
    case ClearOp =>
  }

  // ----- Agreement with a plain map -----

  /** Residents hold what the plain map holds. */
  ghost predicate Agrees<K, V>(o: Options, ops: seq<Op<K, V>>, es: seq<Entry<K, V>>) {
    forall i :: 0 <= i < |es| ==> Latest(o, ops, es[i].key) == Some(es[i].value)
  }

  lemma {:induction false} RunAgrees<K, V>(o: Options, ops: seq<Op<K, V>>)
    requires o.Valid()
    ensures Agrees(o, ops, Run(o, ops).entries)
  {
    if ops != [] {
      var before, op := ops[..|ops| - 1], ops[|ops| - 1];
      var s := Run(o, before);
      RunAgrees(o, before);
      RunKeepsBooks(o, before);
      match op
      case GetOp(k) => RemovedAgrees(o, ops, s.entries, k);
      case SetOp(k, v, w) =>
        RemovedAgrees(o, ops, s.entries, k);
        if Admits(o, op) {
          var t := Admit(s, k, v, w.value);
          var n := EvictsShortestPrefix(o, t);
        }
      case DeleteOp(k) => RemovedAgrees(o, ops, s.entries, k);
      case ClearOp =>
    }
  }

  /** The other residents keep agreeing after an operation on `k`. */
  lemma RemovedAgrees<K, V>(o: Options, ops: seq<Op<K, V>>, es: seq<Entry<K, V>>, k: K)
    requires ops != [] && Agrees(o, ops[..|ops| - 1], es) && DistinctKeys(es) && !ops[|ops| - 1].ClearOp?
    requires ops[|ops| - 1].k == k
    ensures Agrees(o, ops, Without(es, k))
  {
  }

  /** A resident key of an enabled cache hits, and returns its last admitted value since its last delete, clear or
      refused offer; every other key misses, and a miss changes nothing but the miss counter. */
  lemma HitIsLatest<K, V>(o: Options, ops: seq<Op<K, V>>, k: K)
    requires o.Valid()
    ensures var (s, r) := Get(o, Run(o, ops), k);
            && (r.Some? <==> o.enabled && Has(Run(o, ops).entries, k))
            && if r.Some? then r == Latest(o, ops, k) else s == Run(o, ops).(misses := Run(o, ops).misses + 1)
  {
    RunAgrees(o, ops);
  }

  // ----- Counters -----

  function Hits<K(==), V>(o: Options, ops: seq<Op<K, V>>): nat {
    if ops == [] then 0
    else
      var before, op := ops[..|ops| - 1], ops[|ops| - 1];
      Hits(o, before) + if op.GetOp? && o.enabled && Has(Run(o, before).entries, op.k) then 1 else 0
  }

  function Gets<K, V>(ops: seq<Op<K, V>>): nat {
    if ops == [] then 0 else Gets(ops[..|ops| - 1]) + if ops[|ops| - 1].GetOp? then 1 else 0
  }

  /** Offers that an enabled cache turned away. */
  function Refusals<K, V>(o: Options, ops: seq<Op<K, V>>): nat {
    if ops == [] then 0
    else
      var op := ops[|ops| - 1];
      Refusals(o, ops[..|ops| - 1])
        + if op.SetOp? && o.enabled && !(op.w.Finite? && 0.0 <= op.w.value <= o.maxItemWeight) then 1 else 0
  }

  lemma {:induction false} EvictionCounts<K, V>(o: Options, s: State<K, V>)
    ensures var t := EvictToFit(o, s); t.hits == s.hits && t.misses == s.misses && t.refused == s.refused
    decreases |s.entries|
  {
    if Overfull(o, s) && s.entries != [] {
      BuryKeepsEntries(o, s);
      OldestCounts(o, s);
      EvictionCounts(o, EvictOldest(o, s));
    }
  }

  lemma OldestCounts<K, V>(o: Options, s: State<K, V>)
    requires s.entries != []
    ensures var t := EvictOldest(o, s); t.hits == s.hits && t.misses == s.misses && t.refused == s.refused
  {
    hide TombsWithout, TrimTombs;
    var e := s.entries[0];
    var t := s.(entries := s.entries[1..], weight := s.weight - e.weight, evictions := s.evictions + 1);
    TrimKeeps(o, t.(tombs := TombsWithout(t.tombs, e.key) + [Tomb(e.key, e.weight, t.evictions)]));
  }

  /** The counters count: each lookup is a hit or a miss, and each turned-away offer is counted once. */
  lemma {:induction false} CountersCount<K, V>(o: Options, ops: seq<Op<K, V>>)
    ensures var s := Run(o, ops); s.hits == Hits(o, ops) && s.hits + s.misses == Gets(ops) && s.refused == Refusals(o, ops)
  {
    hide EvictToFit, Without, TombsWithout;
    if ops != [] {
      var before, op := ops[..|ops| - 1], ops[|ops| - 1];
      CountersCount(o, before);
      if op.SetOp? && op.w.Finite? { EvictionCounts(o, Admit(Run(o, before), op.k, op.v, op.w.value)); }
    }
  }

  // ----- Recency -----

  /** Residents are listed in the order they were last set or hit. */
  ghost predicate ByRecency<K, V>(o: Options, ops: seq<Op<K, V>>, es: seq<Entry<K, V>>) {
    forall i, j :: 0 <= i < j < |es| ==> LastTouch(o, ops, es[i].key) < LastTouch(o, ops, es[j].key)
  }

  lemma {:induction false} TouchBound<K, V>(o: Options, ops: seq<Op<K, V>>, k: K)
    ensures LastTouch(o, ops, k) <= |ops|
  {
    if ops != [] {
      TouchBound(o, ops[..|ops| - 1], k);
    }
  }

  lemma {:induction false} RunIsByRecency<K, V>(o: Options, ops: seq<Op<K, V>>)
    requires o.Valid()
    ensures ByRecency(o, ops, Run(o, ops).entries)
  {
    if ops != [] {
      var before, op := ops[..|ops| - 1], ops[|ops| - 1];
      var s := Run(o, before);
      RunIsByRecency(o, before);
      RunKeepsBooks(o, before);
      match op
      case GetOp(k) =>
        RemovedByRecency(o, ops, s.entries, k);
        if o.enabled && Has(s.entries, k) {
          NewestByRecency(o, ops, Without(s.entries, k), s.entries[Index(s.entries, k)]);
        }
      case SetOp(k, v, w) =>
        RemovedByRecency(o, ops, s.entries, k);
        if Admits(o, op) {
          NewestByRecency(o, ops, Without(s.entries, k), Entry(k, v, w.value));
          var n := EvictsShortestPrefix(o, Admit(s, k, v, w.value));
        }
      case DeleteOp(k) => RemovedByRecency(o, ops, s.entries, k);
      case ClearOp =>
    }
  }

  lemma RemovedByRecency<K, V>(o: Options, ops: seq<Op<K, V>>, es: seq<Entry<K, V>>, k: K)
    requires ops != [] && ByRecency(o, ops[..|ops| - 1], es) && DistinctKeys(es) && !ops[|ops| - 1].ClearOp?
    requires ops[|ops| - 1].k == k
    ensures ByRecency(o, ops, Without(es, k))
    ensures !Touches(o, ops, k) ==> ByRecency(o, ops, es)
    ensures forall i :: 0 <= i < |Without(es, k)| ==>
              Without(es, k)[i].key != k && LastTouch(o, ops, Without(es, k)[i].key) < |ops|
  {
    hide LastTouch;
    var before := ops[..|ops| - 1];
    WithoutByRecency(o, before, es, k);
    forall i | 0 <= i < |es|
      ensures es[i].key != k || !Touches(o, ops, k) ==>
                LastTouch(o, ops, es[i].key) == LastTouch(o, before, es[i].key) < |ops|
    {
      SameTouch(o, ops, es[i].key);
    }
    var less := Without(es, k);
    forall i | 0 <= i < |less|
      ensures less[i].key != k && LastTouch(o, ops, less[i].key) == LastTouch(o, before, less[i].key) < |ops|
    {
      var j :| 0 <= j < |es| && es[j] == less[i];
    }
  }

  lemma WithoutByRecency<K, V>(o: Options, ops: seq<Op<K, V>>, es: seq<Entry<K, V>>, k: K)
    requires ByRecency(o, ops, es) && DistinctKeys(es)
    ensures ByRecency(o, ops, Without(es, k))
    ensures forall i :: 0 <= i < |Without(es, k)| ==> Without(es, k)[i].key != k && Without(es, k)[i] in es
  {
    hide LastTouch, Without, DistinctKeys;
    WithoutDistinct(es, k);
    var less := Without(es, k);
    forall i, j | 0 <= i < j < |less| ensures LastTouch(o, ops, less[i].key) < LastTouch(o, ops, less[j].key) {
      WithoutPlace(es, k, i);
      WithoutPlace(es, k, j);
      assert Place(es, k, i) < Place(es, k, j);
    }
  }

  lemma SameTouch<K, V>(o: Options, ops: seq<Op<K, V>>, k: K)
    requires ops != []
    ensures !Touches(o, ops, k) ==> LastTouch(o, ops, k) == LastTouch(o, ops[..|ops| - 1], k) < |ops|
  {
    TouchBound(o, ops[..|ops| - 1], k);
  }

  lemma NewestByRecency<K, V>(o: Options, ops: seq<Op<K, V>>, es: seq<Entry<K, V>>, e: Entry<K, V>)
    requires ops != [] && ByRecency(o, ops, es) && Touches(o, ops, e.key)
    requires forall i :: 0 <= i < |es| ==> LastTouch(o, ops, es[i].key) < |ops|
    ensures ByRecency(o, ops, es + [e])
  {
  }

  // ----- What an admitted set evicts -----

  /** `n` oldest entries go, no fewer would do, and both bounds then hold. */
  ghost predicate EvictsExactly<K, V>(o: Options, s: State<K, V>, after: State<K, V>, n: nat) {
    && n <= |s.entries| && after.entries == s.entries[n..] && Bounded(o, after)
    && forall m :: 0 <= m < n ==>
         ((|s.entries| - m) as real) > o.maxEntries || s.weight - Sum(s.entries[..m]) > o.maxWeight
  }

  /** An admitted set evicts the shortest run of least recently touched entries that restores the
      bounds. It keeps its own key if and only if the new value fits beside the drift and one
      entry is allowed at all. */
  lemma SetEvictsShortest<K, V>(o: Options, ops: seq<Op<K, V>>, k: K, v: V, w: Number) returns (n: nat)
    requires o.Valid() && o.enabled && !Oversize(o, w)
    ensures var s := Admit(Run(o, ops), k, v, w.value); var (after, admitted) := Set(o, Run(o, ops), k, v, w);
            && admitted && EvictsExactly(o, s, after, n)
            && ByRecency(o, ops + [SetOp(k, v, w)], s.entries)
            && (Has(after.entries, k) <==> Drift(o, ops) + w.value <= o.maxWeight && 1.0 <= o.maxEntries)
  {
    hide EvictsExactly, Run, Books, Bounded, Admit, ByRecency, Drift, EvictToFit, Withdrawn;
    var run, d, t := Run(o, ops), Drift(o, ops), Withdrawn(o, ops);
    var s := Admit(run, k, v, w.value);
    AdmittedByRecency(o, ops, k, v, w);
    RunKeepsBooks(o, ops);
    AdmitKeeps(o, run, k, v, w.value, d, t);
    AdmitLast(run, k, v, w.value);
    n := EvictionIsExact(o, s, d, t + if TombIndex(run.tombs, k) < |run.tombs| then 1 else 0);
  }

  lemma AdmitLast<K, V>(s: State<K, V>, k: K, v: V, w: real)
    ensures var es := Admit(s, k, v, w).entries; es != [] && es[|es| - 1] == Entry(k, v, w)
  {
  }

  lemma EvictionIsExact<K, V>(o: Options, s: State<K, V>, drift: real, withdrawn: nat) returns (n: nat)
    requires o.Valid() && Books(o, s, drift, withdrawn) && s.entries != []
    ensures EvictsExactly(o, s, EvictToFit(o, s), n)
    ensures var e := s.entries[|s.entries| - 1];
            Has(EvictToFit(o, s).entries, e.key) <==> drift + e.weight <= o.maxWeight && 1.0 <= o.maxEntries
  {
    hide EvictToFit, WeightsFit, DistinctKeys, DistinctTombs, Sum, Has;
    EvictKeeps(o, s, drift, withdrawn);
    n := EvictsShortestPrefix(o, s);
    OwnKey(o, s, n, drift, s.entries[|s.entries| - 1]);
  }

  lemma AdmittedByRecency<K, V>(o: Options, ops: seq<Op<K, V>>, k: K, v: V, w: Number)
    requires o.Valid() && o.enabled && !Oversize(o, w)
    ensures ByRecency(o, ops + [SetOp(k, v, w)], Admit(Run(o, ops), k, v, w.value).entries)
  {
    var all := ops + [SetOp(k, v, w)];
    assert all[..|all| - 1] == ops;
    hide Without, WeightsFit, DistinctTombs, LastTouch, Run, ByRecency, Sum;
    RunKeepsBooks(o, ops);
    RunIsByRecency(o, ops);
    RemovedByRecency(o, all, Run(o, ops).entries, k);
    NewestByRecency(o, all, Without(Run(o, ops).entries, k), Entry(k, v, w.value));
  }

  lemma OwnKey<K, V>(o: Options, s: State<K, V>, n: nat, drift: real, e: Entry<K, V>)
    requires o.Valid() && s.entries != [] && s.entries[|s.entries| - 1] == e && DistinctKeys(s.entries)
    requires s.weight == Sum(s.entries) + drift && n <= |s.entries| && WeightsFit(o, s.entries)
    requires EvictToFit(o, s).entries == s.entries[n..] && EvictToFit(o, s).weight == s.weight - Sum(s.entries[..n])
    requires Bounded(o, EvictToFit(o, s))
    requires forall m :: 0 <= m < n ==>
               ((|s.entries| - m) as real) > o.maxEntries || s.weight - Sum(s.entries[..m]) > o.maxWeight
    ensures Has(s.entries[n..], e.key) <==> drift + e.weight <= o.maxWeight && 1.0 <= o.maxEntries
  {
    hide EvictToFit, Sum, WeightsFit, DistinctKeys;
    var last := |s.entries| - 1;
    TailSum(o, s.entries, last);
    if n <= last {
      TailSum(o, s.entries, n);
      assert s.entries[n..][last - n] == e;
    }
  }

  lemma TailSum<K, V>(o: Options, es: seq<Entry<K, V>>, n: nat)
    requires n < |es| && WeightsFit(o, es)
    ensures Sum(es) - Sum(es[..n]) >= es[|es| - 1].weight
    ensures n == |es| - 1 ==> Sum(es) - Sum(es[..n]) == es[|es| - 1].weight
  {
    var last := |es| - 1;
    assert es == es[..n] + es[n..] && es[n..] == es[n..last] + [es[last]] && [es[last]][1..] == [];
    SumConcat(es[..n], es[n..]);
    SumConcat(es[n..last], [es[last]]);
    SumNonNegative(o, es[n..last]);
  }

  /** The books are exact exactly when no resident of positive weight was refused as oversize since
      the last clear. */
  ghost predicate LostWeight<K, V>(o: Options, ops: seq<Op<K, V>>) {
    ops != [] &&
    var op, before := ops[|ops| - 1], ops[..|ops| - 1];
    !op.ClearOp? && (LostWeight(o, before)
                     || (op.SetOp? && o.enabled && Oversize(o, op.w) && ResidentWeight(Run(o, before), op.k) > 0.0))
  }

  lemma {:induction false} DriftIffLost<K, V>(o: Options, ops: seq<Op<K, V>>)
    requires o.Valid()
    ensures Drift(o, ops) >= 0.0 && (Drift(o, ops) > 0.0 <==> LostWeight(o, ops))
  {
    if ops != [] {
      var before, op := ops[..|ops| - 1], ops[|ops| - 1];
      DriftIffLost(o, before);
      RunKeepsBooks(o, before);
      if op.SetOp? {
        DeletedWeight(o, Run(o, before), op.k);
      }
    }
  }

  lemma BooksExactIff<K, V>(o: Options, ops: seq<Op<K, V>>)
    requires o.Valid()
    ensures Run(o, ops).weight >= Sum(Run(o, ops).entries)
    ensures Run(o, ops).weight == Sum(Run(o, ops).entries) <==> !LostWeight(o, ops)
  {
    RunKeepsBooks(o, ops);
    DriftIffLost(o, ops);
  }
}
