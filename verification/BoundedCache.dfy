/** The one bounded cache: least-recently-used eviction under three bounds, and what it remembers. */
module BoundedCache {
  // Weights are real numbers; the rounding of binary floats is not modelled.

  import opened Ast

  /** A JavaScript number as the cache checks it. */
  datatype Number = Finite(value: real) | NonFinite

  datatype Options = Options(maxEntries: real, maxWeight: real, maxItemWeight: real, maxTombstones: real, enabled: bool) {
    predicate Valid() {
      maxEntries > 0.0 && maxWeight > 0.0 && 0.0 < maxItemWeight <= maxWeight && maxTombstones >= 0.0
    }
  }

  datatype Entry<K, V> = Entry(key: K, value: V, weight: real)
  datatype Tomb<K> = Tomb(key: K, weight: real, evictedAt: nat)

  /** Entries and tombstones are in insertion order, oldest first. */
  datatype State<K, V> = State(entries: seq<Entry<K, V>>, tombs: seq<Tomb<K>>, weight: real, hits: nat, misses: nat,
                               evictions: nat, refused: nat, forgotten: nat)

  function Empty<K, V>(): State<K, V> { State([], [], 0.0, 0, 0, 0, 0, 0) }

  // ----- Insertion-ordered maps -----

  function Index<K(==), V>(es: seq<Entry<K, V>>, k: K): (i: nat)
    ensures i <= |es|
    ensures i < |es| ==> es[i].key == k
    ensures forall j :: 0 <= j < i ==> es[j].key != k
  {
    if es == [] || es[0].key == k then 0 else 1 + Index(es[1..], k)
  }

  predicate Has<K(==), V>(es: seq<Entry<K, V>>, k: K) { Index(es, k) < |es| }

  function Without<K(==), V>(es: seq<Entry<K, V>>, k: K): seq<Entry<K, V>> {
    var i := Index(es, k);
    if i < |es| then es[..i] + es[i + 1..] else es
  }

  function TombIndex<K(==)>(ts: seq<Tomb<K>>, k: K): (i: nat)
    ensures i <= |ts|
    ensures i < |ts| ==> ts[i].key == k
    ensures forall j :: 0 <= j < i ==> ts[j].key != k
  {
    if ts == [] || ts[0].key == k then 0 else 1 + TombIndex(ts[1..], k)
  }

  function TombsWithout<K(==)>(ts: seq<Tomb<K>>, k: K): seq<Tomb<K>> {
    var i := TombIndex(ts, k);
    if i < |ts| then ts[..i] + ts[i + 1..] else ts
  }

  // ----- Operations -----

  /** A hit moves its entry to the newest end. */
  function Get<K(==), V>(o: Options, s: State<K, V>, k: K): (State<K, V>, Option<V>) {
    if !o.enabled || !Has(s.entries, k) then (s.(misses := s.misses + 1), None)
    else
      var e := s.entries[Index(s.entries, k)];
      (s.(hits := s.hits + 1, entries := Without(s.entries, k) + [e]), Some(e.value))
  }

  /** Evicted keys are remembered without their value, up to their own ceiling. */
  function Bury<K(==), V>(o: Options, s: State<K, V>, k: K, weight: real): State<K, V> {
    if o.maxTombstones <= 0.0 then s
    else TrimTombs(o, s.(tombs := TombsWithout(s.tombs, k) + [Tomb(k, weight, s.evictions)]))
  }

  function TrimTombs<K, V>(o: Options, s: State<K, V>): State<K, V>
    decreases |s.tombs|
  {
    if |s.tombs| as real > o.maxTombstones && s.tombs != []
    then TrimTombs(o, s.(tombs := s.tombs[1..], forgotten := s.forgotten + 1))
    else s
  }

  predicate Overfull<K, V>(o: Options, s: State<K, V>) {
    |s.entries| as real > o.maxEntries || s.weight > o.maxWeight
  }

  function EvictOldest<K(==), V>(o: Options, s: State<K, V>): State<K, V>
    requires s.entries != []
  {
    var e := s.entries[0];
    Bury(o, s.(entries := s.entries[1..], weight := s.weight - e.weight, evictions := s.evictions + 1), e.key, e.weight)
  }

  function EvictToFit<K(==), V>(o: Options, s: State<K, V>): State<K, V>
    decreases |s.entries|
  {
    if Overfull(o, s) && s.entries != [] then BuryKeepsEntries(o, s); EvictToFit(o, EvictOldest(o, s)) else s
  }

  lemma BuryKeepsEntries<K, V>(o: Options, s: State<K, V>)
    requires s.entries != []
    ensures EvictOldest(o, s).entries == s.entries[1..] && EvictOldest(o, s).weight == s.weight - s.entries[0].weight
    ensures EvictOldest(o, s).evictions == s.evictions + 1
  {
    var e := s.entries[0];
    var t := s.(entries := s.entries[1..], weight := s.weight - e.weight, evictions := s.evictions + 1);
    if o.maxTombstones > 0.0 {
      TrimKeeps(o, t.(tombs := TombsWithout(t.tombs, e.key) + [Tomb(e.key, e.weight, t.evictions)]));
    }
  }

  lemma {:induction false} TrimKeeps<K, V>(o: Options, s: State<K, V>)
    ensures TrimTombs(o, s) == s.(tombs := TrimTombs(o, s).tombs, forgotten := TrimTombs(o, s).forgotten)
    ensures |TrimTombs(o, s).tombs| <= |s.tombs|
    ensures TrimTombs(o, s).tombs == s.tombs[|s.tombs| - |TrimTombs(o, s).tombs|..]
    ensures TrimTombs(o, s).forgotten + |TrimTombs(o, s).tombs| == s.forgotten + |s.tombs|
    ensures o.maxTombstones >= 0.0 ==> |TrimTombs(o, s).tombs| as real <= o.maxTombstones
    decreases |s.tombs|
  {
    if |s.tombs| as real > o.maxTombstones && s.tombs != [] {
      TrimKeeps(o, s.(tombs := s.tombs[1..], forgotten := s.forgotten + 1));
    }
  }

  /** A weight the caller's function could not give counts as infinite. */
  predicate Oversize(o: Options, w: Number) {
    w.NonFinite? || w.value < 0.0 || w.value > o.maxItemWeight
  }

  /** An enabled cache admits exactly the finite weights from 0 up to its own limit for one item, both ends included. */
  lemma AdmittedIff<K, V>(o: Options, s: State<K, V>, k: K, v: V, w: Number)
    ensures Set(o, s, k, v, w).1 <==> o.enabled && w.Finite? && 0.0 <= w.value <= o.maxItemWeight
  {
    hide EvictToFit;
  }

  /** Deleting answers whether the key was resident, and gives back the weight that was recorded for it. */
  lemma DeletedIff<K, V>(s: State<K, V>, k: K)
    ensures Delete(s, k).1 <==> exists e :: e in s.entries && e.key == k
    ensures Delete(s, k).1 ==> exists e :: e in s.entries && e.key == k && Delete(s, k).0.weight == s.weight - e.weight
    ensures !Delete(s, k).1 ==> Delete(s, k).0.entries == s.entries && Delete(s, k).0.weight == s.weight
  {
    hide TombsWithout;
    var i := Index(s.entries, k);
    if i < |s.entries| { assert s.entries[i] in s.entries; }
  }

  /** Offer a value. The oversize branch drops a resident entry but leaves the recorded weight. */
  function Set<K(==), V>(o: Options, s: State<K, V>, k: K, v: V, w: Number): (State<K, V>, bool) {
    if !o.enabled then (s, false)
    else if Oversize(o, w) then (s.(refused := s.refused + 1, entries := Without(s.entries, k)), false)
    else (EvictToFit(o, Admit(s, k, v, w.value)), true)
  }

  function Admit<K(==), V>(s: State<K, V>, k: K, v: V, w: real): State<K, V> {
    var i := Index(s.entries, k);
    var released := if i < |s.entries| then s.entries[i].weight else 0.0;
    s.(entries := Without(s.entries, k) + [Entry(k, v, w)], tombs := TombsWithout(s.tombs, k),
       weight := s.weight - released + w)
  }

  function Delete<K(==), V>(s: State<K, V>, k: K): (State<K, V>, bool) {
    var i := Index(s.entries, k);
    if i < |s.entries| then
      (s.(entries := Without(s.entries, k), tombs := TombsWithout(s.tombs, k), weight := s.weight - s.entries[i].weight), true)
    else (s.(tombs := TombsWithout(s.tombs, k)), false)
  }

  function Clear<K, V>(s: State<K, V>): State<K, V> {
    s.(entries := [], tombs := [], weight := 0.0)
  }

  predicate Knew<K(==), V>(s: State<K, V>, k: K) {
    Has(s.entries, k) || TombIndex(s.tombs, k) < |s.tombs|
  }

  /** The settings as the caller gives them; the last two may be absent. */
  datatype Settings = Settings(maxEntries: Number, maxWeight: Number, maxItemWeight: Number, maxTombstones: Option<Number>,
                               enabled: Option<bool>)

  /** These settings ask for these options: every number is finite, and an absent ceiling or switch has its default. */
  predicate AsksFor(g: Settings, o: Options) {
    && g.maxEntries == Finite(o.maxEntries) && g.maxWeight == Finite(o.maxWeight) && g.maxItemWeight == Finite(o.maxItemWeight)
    && (if g.maxTombstones.Some? then g.maxTombstones.value == Finite(o.maxTombstones) else o.maxTombstones == 0.0)
    && (if g.enabled.Some? then g.enabled.value == o.enabled else o.enabled)
  }

  predicate Positive(n: Number) { n.Finite? && n.value > 0.0 }

  /** A new cache, or nothing where the constructor throws: the settings are refused exactly when they ask for no valid
      options. */
  method Build<K(==), V>(g: Settings) returns (r: Option<Cache<K, V>>)
    ensures r.Some? ==> fresh(r.value) && r.value.Contents() == Empty() && r.value.opts.Valid() && AsksFor(g, r.value.opts)
    ensures r.None? ==> forall o: Options :: AsksFor(g, o) ==> !o.Valid()
  {
    var bounds := [g.maxEntries, g.maxWeight, g.maxItemWeight];
    for i := 0 to |bounds|
      invariant forall j :: 0 <= j < i ==> Positive(bounds[j])
    {
      if !Positive(bounds[i]) { return None; }
    }
    assert Positive(bounds[0]) && Positive(bounds[1]) && Positive(bounds[2]);
    if g.maxItemWeight.value > g.maxWeight.value { return None; }
    if g.maxTombstones.Some? && (g.maxTombstones.value.NonFinite? || g.maxTombstones.value.value < 0.0) { return None; }
    var tombstones := if g.maxTombstones.Some? then g.maxTombstones.value.value else 0.0;
    var enabled := if g.enabled.Some? then g.enabled.value else true;
    var cache := new Cache(Options(g.maxEntries.value, g.maxWeight.value, g.maxItemWeight.value, tombstones, enabled));
    r := Some(cache);
  }

  /** The cache object: two insertion-ordered maps, the running weight and the counters. */
  class Cache<K(==), V> {
    var entries: seq<Entry<K, V>>
    var tombs: seq<Tomb<K>>
    var weight: real
    var hits: nat
    var misses: nat
    var evictions: nat
    var refused: nat
    var forgotten: nat
    const opts: Options

    ghost function Contents(): State<K, V>
      reads this
    {
      State(entries, tombs, weight, hits, misses, evictions, refused, forgotten)
    }

    constructor (opts: Options)
      requires opts.Valid()
      ensures Contents() == Empty() && this.opts == opts
    {
      this.opts := opts;
      entries, tombs, weight := [], [], 0.0;
      hits, misses, evictions, refused, forgotten := 0, 0, 0, 0, 0;
    }

    method GetValue(k: K) returns (r: Option<V>)
      modifies this
      ensures (Contents(), r) == Get(opts, old(Contents()), k)
    {
      if !opts.enabled {
        misses := misses + 1;
        return None;
      }
      var i := Index(entries, k);
      if i == |entries| {
        misses := misses + 1;
        return None;
      }
      hits := hits + 1;
      var hit := entries[i];
      entries := entries[..i] + entries[i + 1..];
      entries := entries + [hit];
      return Some(hit.value);
    }

    method SetValue(k: K, v: V, w: Number) returns (admitted: bool)
      modifies this
      ensures (Contents(), admitted) == Set(opts, old(Contents()), k, v, w)
    {
      hide EvictToFit;
      if !opts.enabled {
        return false;
      }
      if Oversize(opts, w) {
        refused := refused + 1;
        entries := Without(entries, k);
        return false;
      }
      var i := Index(entries, k);
      if i < |entries| {
        weight := weight - entries[i].weight;
        entries := Without(entries, k);
      }
      tombs := TombsWithout(tombs, k);
      entries := entries + [Entry(k, v, w.value)];
      weight := weight + w.value;
      assert Contents() == Admit(old(Contents()), k, v, w.value);
      EvictWhileOverfull();
      return true;
    }

    method EvictWhileOverfull()
      modifies this
      ensures Contents() == EvictToFit(opts, old(Contents()))
    {
      while |entries| as real > opts.maxEntries || weight > opts.maxWeight
        invariant EvictToFit(opts, Contents()) == EvictToFit(opts, old(Contents()))
        decreases |entries|
      {
        if entries == [] {
          return;
        }
        ghost var before := Contents();
        BuryKeepsEntries(opts, before);
        var oldest := entries[0];
        entries := entries[1..];
        weight := weight - oldest.weight;
        evictions := evictions + 1;
        Tombstone(oldest.key, oldest.weight);
        assert Contents() == EvictOldest(opts, before);
      }
    }

    method Tombstone(k: K, w: real)
      modifies this`tombs, this`forgotten
      ensures Contents() == Bury(opts, old(Contents()), k, w)
    {
      if opts.maxTombstones <= 0.0 {
        return;
      }
      tombs := TombsWithout(tombs, k);
      tombs := tombs + [Tomb(k, w, evictions)];
      while |tombs| as real > opts.maxTombstones
        invariant TrimTombs(opts, Contents()) == Bury(opts, old(Contents()), k, w)
        decreases |tombs|
      {
        if tombs == [] {
          return;
        }
        tombs := tombs[1..];
        forgotten := forgotten + 1;
      }
    }

    method DeleteKey(k: K) returns (was: bool)
      modifies this
      ensures (Contents(), was) == Delete(old(Contents()), k)
    {
      var i := Index(entries, k);
      tombs := TombsWithout(tombs, k);
      if i == |entries| {
        return false;
      }
      weight := weight - entries[i].weight;
      entries := Without(entries, k);
      return true;
    }

    method ClearAll()
      modifies this
      ensures Contents() == Clear(old(Contents()))
    {
      entries, tombs, weight := [], [], 0.0;
    }

    method KnewKey(k: K) returns (r: bool)
      ensures r == Knew(Contents(), k)
      ensures r <==> (exists i :: 0 <= i < |entries| && entries[i].key == k) || exists i :: 0 <= i < |tombs| && tombs[i].key == k
    {
      r := Has(entries, k) || TombIndex(tombs, k) < |tombs|;
    }
  }
}
