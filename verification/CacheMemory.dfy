/** Which keys the cache still knows after a run: every admitted key, but for deletes, clears, refusals of a resident
    and tombstones pushed past their ceiling. */
module CacheMemory {
  import opened Ast
  import opened BoundedCache
  import opened CacheProof

  function Keys<K, V>(es: seq<Entry<K, V>>): (r: seq<K>)
    ensures |r| == |es| && forall i :: 0 <= i < |r| ==> r[i] == es[i].key
  {
    seq(|es|, i requires 0 <= i < |es| => es[i].key)
  }

  function TombKeys<K>(ts: seq<Tomb<K>>): (r: seq<K>)
    ensures |r| == |ts| && forall i :: 0 <= i < |r| ==> r[i] == ts[i].key
  {
    seq(|ts|, i requires 0 <= i < |ts| => ts[i].key)
  }

  // ----- Losing a key -----

  /** The entries that left when the state `s` was cut down to the entries of `after`. */
  function Gone<K, V>(s: State<K, V>, after: State<K, V>): seq<Entry<K, V>> {
    if |after.entries| <= |s.entries| then s.entries[..|s.entries| - |after.entries|] else []
  }

  /** Every key without a value after an admitted set, earliest eviction first, before the tombstone ceiling. */
  function Evicted<K(==), V>(o: Options, s: State<K, V>): seq<K> {
    TombKeys(s.tombs) + Keys(Gone(s, EvictToFit(o, s)))
  }

  /** An admitted set leaves `k` evicted with as many later evictions remembered as the ceiling allows, or more. */
  ghost predicate Forgets<K, V>(o: Options, s: State<K, V>, k: K, v: V, w: real, gone: K) {
    var line := Evicted(o, Admit(s, k, v, w));
    exists p :: 0 <= p < |line| && line[p] == gone && (|line| - p) as real > o.maxTombstones
  }

  /** The operation makes the cache forget `k`: the caller deletes or clears it, a resident is refused as oversize, or its
      tombstone falls past the ceiling. */
  ghost predicate Loses<K, V>(o: Options, s: State<K, V>, op: Op<K, V>, k: K) {
    match op
    case GetOp(_) => false
    case DeleteOp(k') => k' == k
    case ClearOp => true
    case SetOp(k', v, w) => o.enabled && if Oversize(o, w) then k' == k && Has(s.entries, k) else Forgets(o, s, k', v, w.value, k)
  }

  /** Operation `i` admits `k`, and nothing from then on loses it. */
  ghost predicate Survives<K, V>(o: Options, ops: seq<Op<K, V>>, k: K, i: nat) {
    && i < |ops| && Admits(o, ops[i]) && ops[i].k == k
    && forall j :: i <= j < |ops| ==> !Loses(o, Run(o, ops[..j]), ops[j], k)
  }

  // ----- The newest evictions are remembered -----

  /** `newest` is the end of the list, as long as the ceiling allows. */
  predicate NewestOf<K(==)>(o: Options, line: seq<K>, newest: seq<K>) {
    && |newest| <= |line| && newest == line[|line| - |newest|..] && |newest| as real <= o.maxTombstones
    && (|newest| < |line| ==> (|newest| + 1) as real > o.maxTombstones)
  }

  lemma {:induction false} TrimIsLeast<K, V>(o: Options, s: State<K, V>)
    requires |TrimTombs(o, s).tombs| < |s.tombs|
    ensures (|TrimTombs(o, s).tombs| + 1) as real > o.maxTombstones
    decreases |s.tombs|
  {
    var t := s.(tombs := s.tombs[1..], forgotten := s.forgotten + 1);
    if |TrimTombs(o, t).tombs| < |t.tombs| { TrimIsLeast(o, t); }
  }

  /** The state before the tombstone ceiling is applied to an eviction of the oldest entry. */
  function Buried<K, V>(s: State<K, V>): State<K, V>
    requires s.entries != []
  {
    var e := s.entries[0];
    s.(entries := s.entries[1..], weight := s.weight - e.weight, evictions := s.evictions + 1,
       tombs := s.tombs + [Tomb(e.key, e.weight, s.evictions + 1)])
  }

  lemma EvictionBuries<K, V>(o: Options, s: State<K, V>)
    requires s.entries != [] && DistinctTombs(s.entries, s.tombs, s.evictions)
    ensures EvictOldest(o, s).tombs == if o.maxTombstones <= 0.0 then s.tombs else TrimTombs(o, Buried(s)).tombs
  {
    NotTombed(s);
    hide TrimTombs, DistinctTombs, TombsWithout, TombIndex;
  }

  lemma OneBuried<K, V>(o: Options, s: State<K, V>)
    requires o.Valid() && s.entries != [] && DistinctTombs(s.entries, s.tombs, s.evictions)
    requires |s.tombs| as real <= o.maxTombstones
    ensures NewestOf(o, TombKeys(s.tombs) + [s.entries[0].key], TombKeys(EvictOldest(o, s).tombs))
  {
    EvictionBuries(o, s);
    hide DistinctTombs, NewestOf, TrimTombs, TombKeys, EvictOldest;
    if o.maxTombstones > 0.0 {
      BuriedKeys(s);
      TrimmedNewest(o, Buried(s));
    } else {
      NoneNewest(o, TombKeys(s.tombs) + [s.entries[0].key], s.tombs);
    }
  }

  lemma BuriedKeys<K, V>(s: State<K, V>)
    requires s.entries != []
    ensures TombKeys(Buried(s).tombs) == TombKeys(s.tombs) + [s.entries[0].key]
  {
    TombKeysPush(s.tombs, Tomb(s.entries[0].key, s.entries[0].weight, s.evictions + 1));
    hide TombKeys;
  }

  lemma NoneNewest<K>(o: Options, line: seq<K>, ts: seq<Tomb<K>>)
    requires o.maxTombstones == 0.0 && |ts| as real <= o.maxTombstones
    ensures NewestOf(o, line, TombKeys(ts))
  {
    assert ts == [] && line[|line|..] == [];
  }

  lemma TombKeysPush<K>(ts: seq<Tomb<K>>, t: Tomb<K>)
    ensures TombKeys(ts + [t]) == TombKeys(ts) + [t.key]
  {
  }

  lemma NotTombed<K, V>(s: State<K, V>)
    requires s.entries != [] && DistinctTombs(s.entries, s.tombs, s.evictions)
    ensures TombsWithout(s.tombs, s.entries[0].key) == s.tombs
  {
    hide Keys, TombKeys;
    assert TombIndex(s.tombs, s.entries[0].key) == |s.tombs|;
  }

  lemma TrimmedNewest<K, V>(o: Options, u: State<K, V>)
    requires o.Valid()
    ensures NewestOf(o, TombKeys(u.tombs), TombKeys(TrimTombs(o, u).tombs))
  {
    hide TrimTombs, NewestOf;
    TrimKeeps(o, u);
    if |TrimTombs(o, u).tombs| < |u.tombs| { TrimIsLeast(o, u); }
    Suffix(o, TombKeys(u.tombs), u.tombs, TrimTombs(o, u).tombs);
  }

  lemma Suffix<K>(o: Options, line: seq<K>, all: seq<Tomb<K>>, kept: seq<Tomb<K>>)
    requires TombKeys(all) == line && |kept| <= |all| && kept == all[|all| - |kept|..]
    requires |kept| as real <= o.maxTombstones && (|kept| < |all| ==> (|kept| + 1) as real > o.maxTombstones)
    ensures NewestOf(o, line, TombKeys(kept))
  {
    assert forall i :: 0 <= i < |kept| ==> kept[i] == all[|all| - |kept| + i];
  }

  lemma NewestThen<K>(o: Options, line: seq<K>, middle: seq<K>, more: seq<K>, newest: seq<K>)
    requires NewestOf(o, line, middle) && NewestOf(o, middle + more, newest)
    ensures NewestOf(o, line + more, newest)
  {
    var all, both := line + more, middle + more;
    var n, m := |line| - |middle|, |both| - |newest|;
    EndOfBoth(line, middle, more);
    DropTwice(all, n, m);
  }

  lemma EndOfBoth<K>(line: seq<K>, middle: seq<K>, more: seq<K>)
    requires |middle| <= |line| && middle == line[|line| - |middle|..]
    ensures (line + more)[|line| - |middle|..] == middle + more
  {
  }

  lemma DropTwice<K>(s: seq<K>, n: nat, m: nat)
    requires n + m <= |s|
    ensures s[n..][m..] == s[n + m..]
  {
  }

  /** Eviction keeps the tombstones of the latest evictions, as many as the ceiling allows. */
  lemma {:induction false} NewestRemembered<K, V>(o: Options, s: State<K, V>, drift: real, withdrawn: nat)
    requires o.Valid() && Books(o, s, drift, withdrawn)
    ensures NewestOf(o, Evicted(o, s), TombKeys(EvictToFit(o, s).tombs))
    ensures var n := |s.entries| - |EvictToFit(o, s).entries|; n >= 0 && EvictToFit(o, s).entries == s.entries[n..]
    decreases |s.entries|
  {
    hide Books, EvictOldest, NewestOf, Overfull;
    if Overfull(o, s) && s.entries != [] {
      BuryKeepsEntries(o, s);
      var t := EvictOldest(o, s);
      EvictOldestKeeps(o, s, drift, withdrawn);
      NewestRemembered(o, t, drift, withdrawn);
      TombBooks(o, s, drift, withdrawn);
      OneBuried(o, s);
      var n := |t.entries| - |EvictToFit(o, t).entries|;
      NewestThen(o, TombKeys(s.tombs) + [s.entries[0].key], TombKeys(t.tombs), Keys(t.entries[..n]), TombKeys(EvictToFit(o, t).tombs));
      FirstGone(s, t, n);
    } else {
      NothingGone(o, s, drift, withdrawn);
    }
  }

  lemma TombBooks<K, V>(o: Options, s: State<K, V>, drift: real, withdrawn: nat)
    requires Books(o, s, drift, withdrawn)
    ensures DistinctTombs(s.entries, s.tombs, s.evictions) && DistinctKeys(s.entries) && |s.tombs| as real <= o.maxTombstones
  {
  }

  lemma FirstGone<K, V>(s: State<K, V>, t: State<K, V>, n: nat)
    requires s.entries != [] && t.entries == s.entries[1..] && n <= |t.entries|
    ensures TombKeys(s.tombs) + [s.entries[0].key] + Keys(t.entries[..n]) == TombKeys(s.tombs) + Keys(s.entries[..n + 1])
    ensures t.entries[n..] == s.entries[n + 1..]
  {
    assert Keys(s.entries[..n + 1]) == [s.entries[0].key] + Keys(t.entries[..n]);
  }

  lemma NothingGone<K, V>(o: Options, s: State<K, V>, drift: real, withdrawn: nat)
    requires Books(o, s, drift, withdrawn) && EvictToFit(o, s) == s
    ensures NewestOf(o, Evicted(o, s), TombKeys(s.tombs))
  {
    assert Evicted(o, s) == TombKeys(s.tombs);
  }

  // ----- One operation -----

  lemma KnewIn<K, V>(s: State<K, V>, k: K)
    ensures Knew(s, k) <==> k in Keys(s.entries) || k in TombKeys(s.tombs)
    ensures Has(s.entries, k) <==> k in Keys(s.entries)
  {
    var i, j := Index(s.entries, k), TombIndex(s.tombs, k);
    if i < |s.entries| { assert Keys(s.entries)[i] == k; }
    if j < |s.tombs| { assert TombKeys(s.tombs)[j] == k; }
  }

  ghost predicate NoRepeats<K>(s: seq<K>) {
    forall i, j :: 0 <= i < j < |s| ==> s[i] != s[j]
  }

  lemma Removed<K>(s: seq<K>, i: nat, x: K)
    requires NoRepeats(s) && i < |s|
    ensures x in s[..i] + s[i + 1..] <==> x in s && x != s[i]
  {
    var front, back := s[..i], s[i + 1..];
    assert s == front + [s[i]] + back;
    assert s[i] !in front && s[i] !in back;
  }

  lemma KeysWithout<K, V>(es: seq<Entry<K, V>>, i: nat)
    requires i < |es|
    ensures Keys(es[..i] + es[i + 1..]) == Keys(es)[..i] + Keys(es)[i + 1..]
  {
  }

  lemma KeysDiffer<K, V>(es: seq<Entry<K, V>>)
    requires DistinctKeys(es)
    ensures NoRepeats(Keys(es))
  {
  }

  lemma WithoutKeys<K, V>(es: seq<Entry<K, V>>, k: K, x: K)
    requires DistinctKeys(es)
    ensures x in Keys(Without(es, k)) <==> x in Keys(es) && x != k
  {
    KeysDiffer(es);
    hide DistinctKeys, NoRepeats, Keys;
    var i := Index(es, k);
    if i < |es| {
      KeysWithout(es, i);
      Removed(Keys(es), i, x);
    } else {
      AbsentKey(es, k);
    }
  }

  lemma AbsentKey<K, V>(es: seq<Entry<K, V>>, k: K)
    requires Index(es, k) == |es|
    ensures k !in Keys(es)
  {
  }

  lemma TombKeysWithout<K>(ts: seq<Tomb<K>>, i: nat)
    requires i < |ts|
    ensures TombKeys(ts[..i] + ts[i + 1..]) == TombKeys(ts)[..i] + TombKeys(ts)[i + 1..]
  {
  }

  lemma AbsentTomb<K>(ts: seq<Tomb<K>>, k: K)
    requires TombIndex(ts, k) == |ts|
    ensures k !in TombKeys(ts)
  {
  }

  lemma TombsWithoutKeys<K, V>(es: seq<Entry<K, V>>, ts: seq<Tomb<K>>, evictions: nat, k: K, x: K)
    requires DistinctTombs(es, ts, evictions)
    ensures x in TombKeys(TombsWithout(ts, k)) <==> x in TombKeys(ts) && x != k
  {
    TombKeysDiffer(es, ts, evictions);
    hide DistinctTombs, NoRepeats, TombKeys;
    var i := TombIndex(ts, k);
    if i < |ts| {
      TombKeysWithout(ts, i);
      Removed(TombKeys(ts), i, x);
    } else {
      AbsentTomb(ts, k);
    }
  }

  lemma TombKeysDiffer<K, V>(es: seq<Entry<K, V>>, ts: seq<Tomb<K>>, evictions: nat)
    requires DistinctTombs(es, ts, evictions)
    ensures NoRepeats(TombKeys(ts))
  {
  }

  lemma MovedKeys<K, V>(es: seq<Entry<K, V>>, k: K, e: Entry<K, V>, x: K)
    requires DistinctKeys(es) && e.key == k
    ensures x in Keys(Without(es, k) + [e]) <==> x in Keys(es) || x == k
  {
    hide Without;
    WithoutKeys(es, k, x);
    assert Keys(Without(es, k) + [e]) == Keys(Without(es, k)) + [k];
  }

  lemma AdmittedKnown<K, V>(s: State<K, V>, k: K, v: V, w: real, x: K)
    requires DistinctKeys(s.entries) && DistinctTombs(s.entries, s.tombs, s.evictions)
    ensures Knew(Admit(s, k, v, w), x) <==> x == k || Knew(s, x)
  {
    hide Knew, Without, TombsWithout, DistinctKeys, DistinctTombs;
    KnewIn(s, x);
    KnewIn(Admit(s, k, v, w), x);
    MovedKeys(s.entries, k, Entry(k, v, w), x);
    TombsWithoutKeys(s.entries, s.tombs, s.evictions, k, x);
  }

  /** The keys with too many after them are those before the newest. */
  lemma PastCeiling<K>(o: Options, line: seq<K>, newest: seq<K>, x: K)
    requires NewestOf(o, line, newest)
    ensures (exists p :: 0 <= p < |line| && line[p] == x && (|line| - p) as real > o.maxTombstones)
       <==> x in line[..|line| - |newest|]
  {
    var cut := |line| - |newest|;
    if x in line[..cut] {
      var p :| 0 <= p < cut && line[..cut][p] == x;
      assert line[p] == x;
    }
    if p :| 0 <= p < |line| && line[p] == x && (|line| - p) as real > o.maxTombstones {
      assert line[..cut][p] == x;
    }
  }

  lemma OneSide<K>(line: seq<K>, cut: nat, x: K)
    requires NoRepeats(line) && cut <= |line|
    ensures x in line[cut..] <==> x in line && x !in line[..cut]
  {
    assert line == line[..cut] + line[cut..];
  }

  /** Of a list without repetition, exactly the keys past the ceiling are not among the newest. */
  lemma InNewest<K>(o: Options, line: seq<K>, newest: seq<K>, x: K)
    requires NewestOf(o, line, newest) && NoRepeats(line)
    ensures x in newest <==>
      x in line && !exists p :: 0 <= p < |line| && line[p] == x && (|line| - p) as real > o.maxTombstones
  {
    hide NoRepeats;
    PastCeiling(o, line, newest, x);
    OneSide(line, |line| - |newest|, x);
  }

  lemma EvictedOnce<K, V>(o: Options, s: State<K, V>, n: nat)
    requires n <= |s.entries| && DistinctKeys(s.entries) && DistinctTombs(s.entries, s.tombs, s.evictions)
    ensures NoRepeats(TombKeys(s.tombs) + Keys(s.entries[..n]))
    ensures forall x :: x in Keys(s.entries[n..]) ==> x !in TombKeys(s.tombs) + Keys(s.entries[..n])
  {
  }

  lemma EitherSide<K, V>(s: State<K, V>, n: nat, x: K)
    requires n <= |s.entries|
    ensures x in Keys(s.entries) || x in TombKeys(s.tombs)
       <==> x in Keys(s.entries[n..]) || x in TombKeys(s.tombs) + Keys(s.entries[..n])
  {
    assert Keys(s.entries) == Keys(s.entries[..n]) + Keys(s.entries[n..]);
  }

  lemma EvictionKnown<K, V>(o: Options, s: State<K, V>, drift: real, withdrawn: nat, x: K)
    requires o.Valid() && Books(o, s, drift, withdrawn)
    ensures var line := Evicted(o, s);
      Knew(EvictToFit(o, s), x) <==>
        Knew(s, x) && !exists p :: 0 <= p < |line| && line[p] == x && (|line| - p) as real > o.maxTombstones
  {
    hide EvictToFit, Books, Knew, NewestOf;
    var t := EvictToFit(o, s);
    NewestRemembered(o, s, drift, withdrawn);
    TombBooks(o, s, drift, withdrawn);
    var n := |s.entries| - |t.entries|;
    KnewIn(s, x);
    KnewIn(t, x);
    EvictedOnce(o, s, n);
    EitherSide(s, n, x);
    InNewest(o, Evicted(o, s), TombKeys(t.tombs), x);
  }

  /** One operation: a key is known afterwards exactly when it was known or is admitted now, and is not lost. */
  lemma StepKnown<K, V>(o: Options, s: State<K, V>, op: Op<K, V>, drift: real, withdrawn: nat, x: K)
    requires o.Valid() && Books(o, s, drift, withdrawn)
    ensures Knew(Apply(o, s, op), x) <==> (Knew(s, x) || (Admits(o, op) && op.k == x)) && !Loses(o, s, op, x)
  {
    hide EvictToFit, Knew, Admit, Forgets;
    TombBooks(o, s, drift, withdrawn);
    match op
    case GetOp(k) => GetKnown(o, s, k, x);
    case DeleteOp(k) => DeletedKnown(s, k, x);
    case ClearOp => KnewIn(Clear(s), x);
    case SetOp(k, v, w) =>
      if o.enabled && Oversize(o, w) { RefusedKnown(s, s.(refused := s.refused + 1, entries := Without(s.entries, k)), k, x); }
      if o.enabled && !Oversize(o, w) {
        AdmitKeeps(o, s, k, v, w.value, drift, withdrawn);
        AdmittedKnown(s, k, v, w.value, x);
        hide Books;
        EvictionKnown(o, Admit(s, k, v, w.value), drift, withdrawn + if TombIndex(s.tombs, k) < |s.tombs| then 1 else 0, x);
        ForgetsIs(o, s, k, v, w.value, x);
      }
  }

  lemma ForgetsIs<K, V>(o: Options, s: State<K, V>, k: K, v: V, w: real, x: K)
    ensures var line := Evicted(o, Admit(s, k, v, w));
      Forgets(o, s, k, v, w, x) <==> exists p :: 0 <= p < |line| && line[p] == x && (|line| - p) as real > o.maxTombstones
  {
  }

  lemma GetKnown<K, V>(o: Options, s: State<K, V>, k: K, x: K)
    requires DistinctKeys(s.entries)
    ensures Knew(Get(o, s, k).0, x) <==> Knew(s, x)
  {
    hide Knew, DistinctKeys;
    KnewIn(s, x);
    KnewIn(Get(o, s, k).0, x);
    if o.enabled && Has(s.entries, k) {
      KnewIn(s, k);
      MovedKeys(s.entries, k, s.entries[Index(s.entries, k)], x);
    }
  }

  lemma DeletedKnown<K, V>(s: State<K, V>, k: K, x: K)
    requires DistinctKeys(s.entries) && DistinctTombs(s.entries, s.tombs, s.evictions)
    ensures Knew(Delete(s, k).0, x) <==> Knew(s, x) && x != k
  {
    hide Knew, DistinctKeys, DistinctTombs;
    KnewIn(s, x);
    KnewIn(Delete(s, k).0, x);
    WithoutKeys(s.entries, k, x);
    TombsWithoutKeys(s.entries, s.tombs, s.evictions, k, x);
  }

  lemma RefusedKnown<K, V>(s: State<K, V>, t: State<K, V>, k: K, x: K)
    requires DistinctKeys(s.entries) && DistinctTombs(s.entries, s.tombs, s.evictions)
    requires t.entries == Without(s.entries, k) && t.tombs == s.tombs
    ensures Knew(t, x) <==> Knew(s, x) && !(x == k && Has(s.entries, k))
  {
    hide Knew, Without;
    KnewIn(s, x);
    KnewIn(t, x);
    WithoutKeys(s.entries, k, x);
  }

  // ----- Whole runs -----

  lemma SurvivesLonger<K, V>(o: Options, ops: seq<Op<K, V>>, k: K, i: nat)
    requires ops != [] && i < |ops| - 1
    ensures Survives(o, ops, k, i) <==>
      Survives(o, ops[..|ops| - 1], k, i) && !Loses(o, Run(o, ops[..|ops| - 1]), ops[|ops| - 1], k)
  {
    hide Run, Loses;
    var before := ops[..|ops| - 1];
    assert forall j :: 0 <= j < |before| ==> before[j] == ops[j] && before[..j] == ops[..j];
  }

  /** Over every run: a key is known exactly when some admitted set of it was followed by no operation that loses it. */
  lemma {:induction false} KnownIff<K, V>(o: Options, ops: seq<Op<K, V>>, k: K)
    requires o.Valid()
    ensures Knew(Run(o, ops), k) <==> exists i: nat :: Survives(o, ops, k, i)
  {
    hide Apply, Knew, Loses, Survives, Books;
    if ops == [] {
      NothingKnown(o, ops, k);
    } else {
      var before, op := ops[..|ops| - 1], ops[|ops| - 1];
      KnownIff(o, before, k);
      RunKeepsBooks(o, before);
      StepKnown(o, Run(o, before), op, Drift(o, before), Withdrawn(o, before), k);
      hide Run;
      LastSurvives(o, ops, k);
      forall i: nat | i < |before| ensures Survives(o, ops, k, i) <==> Survives(o, before, k, i) && !Loses(o, Run(o, before), op, k) {
        SurvivesLonger(o, ops, k, i);
      }
      SurvivesIn(o, before, k);
      SurvivesIn(o, ops, k);
    }
  }

  lemma SurvivesIn<K, V>(o: Options, ops: seq<Op<K, V>>, k: K)
    ensures forall i: nat :: Survives(o, ops, k, i) ==> i < |ops|
  {
    hide Loses, Run;
  }

  lemma LastSurvives<K, V>(o: Options, ops: seq<Op<K, V>>, k: K)
    requires ops != []
    ensures Survives(o, ops, k, |ops| - 1) <==>
      Admits(o, ops[|ops| - 1]) && ops[|ops| - 1].k == k && !Loses(o, Run(o, ops[..|ops| - 1]), ops[|ops| - 1], k)
  {
    hide Loses, Run;
  }

  lemma NothingKnown<K, V>(o: Options, ops: seq<Op<K, V>>, k: K)
    requires ops == []
    ensures !Knew(Run(o, ops), k) && forall i: nat :: !Survives(o, ops, k, i)
  {
    hide Loses;
  }
}
