/**
 * ChronoHashMap: a hash map that records, in two further maps `added` and
 * `removed`, the entries put and removed since its last reset.
 *
 * Values are `Option<V>`, with `None` standing for Java's null, because the
 * map's rules compare values null-safely and a null value is what `get`
 * also answers for an absent key. The live map is a mathematical map (the
 * `HashMap` it extends); `checkpoint` is a ghost: the live entries at
 * creation or at the last reset.
 *
 * The map's own `remove` compares the removed value with the one recorded
 * as added; its key and entry views only ask whether the key was recorded
 * as added. Its values view records nothing.
 */
module ChronoHashMaps {
  import opened Lang
  import opened Seqs

  /** The `added` and `removed` maps. */
  datatype MapDeltas<K, V> = MapDeltas(added: map<K, Option<V>>, removed: map<K, Option<V>>)

  /** A `Map.Entry`: a key and the value it maps to. */
  datatype Entry<K, V> = Entry(key: K, value: Option<V>)

  /** `m.get(k)`: the value mapped to `k`, or null when `k` is absent. */
  function Lookup<K, V(==)>(m: map<K, Option<V>>, k: K): Option<V> {
    if k in m then m[k] else None
  }

  /** The map the `create` factories build, one `_put` per pair: a later pair for a key wins. */
  function MapOf<K, V(==)>(pairs: seq<(K, Option<V>)>): map<K, Option<V>> {
    if pairs == [] then map[]
    else MapOf(pairs[..|pairs| - 1])[pairs[|pairs| - 1].0 := pairs[|pairs| - 1].1]
  }

  /**
   * The deltas account for every difference between the checkpoint and
   * the live map: every removed key was in the checkpoint with the value
   * recorded for it, a checkpoint key recorded as added was also recorded
   * as removed (its old value is not lost), and the live map is the
   * checkpoint without the removed keys, overlaid with the added entries.
   */
  ghost predicate MapLedger<K, V>(checkpoint: map<K, Option<V>>, live: map<K, Option<V>>, d: MapDeltas<K, V>) {
    && (forall k :: k in d.removed ==> k in checkpoint && d.removed[k] == checkpoint[k])
    && (forall k :: k in d.added && k in checkpoint ==> k in d.removed)
    && live == (checkpoint - d.removed.Keys) + d.added
  }

  /** put(k, v): a key removed with a null-equal value is forgiven; anything else is recorded as added. */
  function PutDeltas<K, V(==)>(d: MapDeltas<K, V>, k: K, v: Option<V>): MapDeltas<K, V> {
    if Lookup(d.removed, k) == v then MapDeltas(d.added, d.removed - {k})
    else MapDeltas(d.added[k := v], d.removed)
  }

  /** remove(k) of a present key whose value was `value`: compared with the value recorded as added. */
  function RemoveDeltas<K, V(==)>(d: MapDeltas<K, V>, k: K, value: Option<V>): MapDeltas<K, V> {
    if Lookup(d.added, k) == value then MapDeltas(d.added - {k}, d.removed)
    else MapDeltas(d.added, d.removed[k := value])
  }

  /** A removal through the key or entry view: only whether the key was recorded as added counts. */
  function ViewRemoveDeltas<K, V(==)>(d: MapDeltas<K, V>, k: K, value: Option<V>): MapDeltas<K, V> {
    if k in d.added then MapDeltas(d.added - {k}, d.removed)
    else MapDeltas(d.added, d.removed[k := value])
  }

  /** The entries of `live` under the keys of `gone` that were not recorded as added. */
  function Lost<K, V>(added: map<K, Option<V>>, live: map<K, Option<V>>, gone: set<K>): map<K, Option<V>>
    requires gone <= live.Keys
  {
    map k | k in gone && k !in added :: live[k]
  }

  /** The view rule applied to every key of `gone`, each with its value in `live`. */
  function DropKeys<K, V(==)>(d: MapDeltas<K, V>, live: map<K, Option<V>>, gone: set<K>): MapDeltas<K, V>
    requires gone <= live.Keys
  {
    MapDeltas(d.added - gone, d.removed + Lost(d.added, live, gone))
  }

  /** The entries of `m` that put records as added: those not restoring a removed value. */
  function Recorded<K, V(==)>(removed: map<K, Option<V>>, m: map<K, Option<V>>): map<K, Option<V>> {
    map k | k in m && Lookup(removed, k) != m[k] :: m[k]
  }

  /** The keys of `m` that put forgives: those restoring a removed value. */
  function Forgiven<K, V(==)>(removed: map<K, Option<V>>, m: map<K, Option<V>>): set<K> {
    set k | k in m && Lookup(removed, k) == m[k]
  }

  /** The put rule applied to every entry of `m`. */
  function PutAllDeltas<K, V(==)>(d: MapDeltas<K, V>, m: map<K, Option<V>>): MapDeltas<K, V> {
    MapDeltas(d.added + Recorded(d.removed, m), d.removed - Forgiven(d.removed, m))
  }

  /** clear(): a non-empty map drops its added keys and copies what is left into `removed`. */
  function ClearDeltas<K, V(==)>(d: MapDeltas<K, V>, live: map<K, Option<V>>): MapDeltas<K, V> {
    if live == map[] then d
    else MapDeltas(map[], d.removed + (live - d.added.Keys))
  }

  /**
   * When put(k, v) keeps the ledger: restoring a removed key to its old
   * value must not leave a stale addition behind, a put over a key still
   * holding its checkpoint value loses that value unless both are null,
   * and a null put of a key new to the checkpoint goes unrecorded.
   */
  ghost predicate PutTracked<K, V>(checkpoint: map<K, Option<V>>, live: map<K, Option<V>>, d: MapDeltas<K, V>,
                                   k: K, v: Option<V>) {
    && (k in d.removed && d.removed[k] == v ==> k !in d.added)
    && (k !in d.removed && k in checkpoint ==> v.None? && checkpoint[k].None?)
    && (k !in checkpoint ==> v.Some? || (k in live && live[k].None?))
  }

  /** put(k, v) keeps the ledger exactly in the cases `PutTracked` names. */
  lemma PutLedger<K, V>(checkpoint: map<K, Option<V>>, live: map<K, Option<V>>, d: MapDeltas<K, V>,
                        k: K, v: Option<V>)
    requires MapLedger(checkpoint, live, d)
    ensures MapLedger(checkpoint, live[k := v], PutDeltas(d, k, v)) <==> PutTracked(checkpoint, live, d, k, v)
  {
    var r := PutDeltas(d, k, v);
    var live' := live[k := v];
    if Lookup(d.removed, k) == v {
      if k in d.removed {
        if k !in d.added {
          assert live' == (checkpoint - r.removed.Keys) + r.added;
        } else {
          assert k in r.added && k in checkpoint && k !in r.removed;
        }
      } else if k in live && live[k].None? {
        assert live' == live;
      } else {
        assert live' != live;
      }
    } else if k !in checkpoint || k in d.removed {
      assert live' == (checkpoint - r.removed.Keys) + r.added;
    } else {
      assert k in r.added && k !in r.removed;
    }
  }

  /**
   * remove(k) of a present key keeps the ledger unless the key still holds
   * a null checkpoint value: null matches "not recorded as added", so
   * nothing is recorded.
   */
  lemma RemoveLedger<K, V>(checkpoint: map<K, Option<V>>, live: map<K, Option<V>>, d: MapDeltas<K, V>, k: K)
    requires MapLedger(checkpoint, live, d) && k in live
    ensures MapLedger(checkpoint, live - {k}, RemoveDeltas(d, k, live[k])) <==> (k in d.added || live[k].Some?)
  {
    var r := RemoveDeltas(d, k, live[k]);
    if k in d.added || live[k].Some? {
      assert live - {k} == (checkpoint - r.removed.Keys) + r.added;
    } else {
      assert r == d;
      assert k in (checkpoint - d.removed.Keys) + d.added;
    }
  }

  /** A removal through the key or entry view always keeps the ledger. */
  lemma ViewRemoveLedger<K, V>(checkpoint: map<K, Option<V>>, live: map<K, Option<V>>, d: MapDeltas<K, V>, k: K)
    requires MapLedger(checkpoint, live, d) && k in live
    ensures MapLedger(checkpoint, live - {k}, ViewRemoveDeltas(d, k, live[k]))
  {
    var r := ViewRemoveDeltas(d, k, live[k]);
    assert live - {k} == (checkpoint - r.removed.Keys) + r.added;
  }

  /**
   * The map's `remove` and the views' removal record the same thing
   * except for a key still holding a null checkpoint value, which only the
   * views record.
   */
  lemma RemoveRulesAgree<K, V>(checkpoint: map<K, Option<V>>, live: map<K, Option<V>>, d: MapDeltas<K, V>, k: K)
    requires MapLedger(checkpoint, live, d) && k in live
    ensures RemoveDeltas(d, k, live[k]) == ViewRemoveDeltas(d, k, live[k]) <==> (k in d.added || live[k].Some?)
  {
    if k !in d.added && live[k].None? {
      assert k !in d.removed;
      assert ViewRemoveDeltas(d, k, live[k]).removed != d.removed;
    }
  }

  /** Removing a set of keys through a view keeps the ledger, whatever the order. */
  lemma DropKeysLedger<K, V>(checkpoint: map<K, Option<V>>, live: map<K, Option<V>>, d: MapDeltas<K, V>, gone: set<K>)
    requires MapLedger(checkpoint, live, d) && gone <= live.Keys
    ensures MapLedger(checkpoint, live - gone, DropKeys(d, live, gone))
  {
    var r := DropKeys(d, live, gone);
    assert live - gone == (checkpoint - r.removed.Keys) + r.added;
  }

  /** Removing one more key from what is left. */
  lemma DropOneMore<K, V>(live: map<K, Option<V>>, gone: set<K>, k: K)
    ensures (live - gone) - {k} == live - (gone + {k})
  {
  }

  /** Removing keys that are absent changes nothing. */
  lemma MinusPresent<K, V>(live: map<K, Option<V>>, keys: set<K>)
    ensures live - (live.Keys * keys) == live - keys
  {
  }

  /** One more key removed through a view. */
  lemma DropKeysStep<K, V>(d: MapDeltas<K, V>, live: map<K, Option<V>>, gone: set<K>, k: K)
    requires gone <= live.Keys && k in live && k !in gone
    ensures ViewRemoveDeltas(DropKeys(d, live, gone), k, live[k]) == DropKeys(d, live, gone + {k})
  {
    var lost := Lost(d.added, live, gone);
    if k in d.added {
      assert Lost(d.added, live, gone + {k}) == lost;
      assert (d.added - gone) - {k} == d.added - (gone + {k});
    } else {
      assert Lost(d.added, live, gone + {k}) == lost[k := live[k]];
      assert (d.removed + lost)[k := live[k]] == d.removed + lost[k := live[k]];
      assert d.added - gone == d.added - (gone + {k});
    }
  }

  /**
   * clear() keeps the ledger and leaves `removed` holding exactly the
   * checkpoint, whatever happened in between.
   */
  lemma ClearLedger<K, V>(checkpoint: map<K, Option<V>>, live: map<K, Option<V>>, d: MapDeltas<K, V>)
    requires MapLedger(checkpoint, live, d)
    ensures ClearDeltas(d, live) == MapDeltas(map[], checkpoint)
    ensures MapLedger(checkpoint, map[], ClearDeltas(d, live))
  {
    if live == map[] {
      assert forall k :: k in d.added ==> k in live;
      assert forall k :: k in checkpoint && k !in d.removed ==> k in live;
      assert d.removed == checkpoint;
    } else {
      var r := ClearDeltas(d, live);
      assert r.removed == checkpoint;
    }
  }

  /** putAll(m) of a single entry is put. */
  lemma PutAllSingle<K, V>(d: MapDeltas<K, V>, k: K, v: Option<V>)
    ensures PutAllDeltas(d, map[k := v]) == PutDeltas(d, k, v)
  {
    var r := PutAllDeltas(d, map[k := v]);
    if Lookup(d.removed, k) == v {
      assert r.added == d.added;
    } else {
      assert r.removed == d.removed;
    }
  }

  /** One more entry put during putAll: the entries already put do not change what `k` records. */
  lemma PutAllStep<K, V>(d: MapDeltas<K, V>, m: map<K, Option<V>>, k: K, v: Option<V>)
    requires k !in m
    ensures PutDeltas(PutAllDeltas(d, m), k, v) == PutAllDeltas(d, m[k := v])
  {
    var recorded, forgiven := Recorded(d.removed, m), Forgiven(d.removed, m);
    assert k !in forgiven;
    RecordedStep(d.removed, m, k, v);
    ForgivenStep(d.removed, m, k, v);
    if Lookup(d.removed, k) == v {
      assert (d.removed - forgiven) - {k} == d.removed - (forgiven + {k});
    } else {
      assert (d.added + recorded)[k := v] == d.added + recorded[k := v];
    }
  }

  lemma RecordedStep<K, V>(removed: map<K, Option<V>>, m: map<K, Option<V>>, k: K, v: Option<V>)
    requires k !in m
    ensures Recorded(removed, m[k := v])
         == if Lookup(removed, k) == v then Recorded(removed, m) else Recorded(removed, m)[k := v]
  {
  }

  lemma ForgivenStep<K, V>(removed: map<K, Option<V>>, m: map<K, Option<V>>, k: K, v: Option<V>)
    requires k !in m
    ensures Forgiven(removed, m[k := v])
         == if Lookup(removed, k) == v then Forgiven(removed, m) + {k} else Forgiven(removed, m)
  {
  }

  /** One more key of `m` put during putAll. */
  lemma PutAllProgress<K, V>(live: map<K, Option<V>>, m: map<K, Option<V>>, pending: set<K>, k: K)
    requires pending <= m.Keys && k in pending
    ensures k !in m - pending
    ensures (m - pending)[k := m[k]] == m - (pending - {k})
    ensures (live + (m - pending))[k := m[k]] == live + (m - (pending - {k}))
  {
    assert (m - pending)[k := m[k]] == m - (pending - {k});
  }

  /** One more added key dropped, unrecorded, by clear(). */
  lemma DropProgress<K, V>(live: map<K, Option<V>>, keys: set<K>, pending: set<K>, k: K)
    requires pending <= keys && k in pending
    ensures (live - (keys - pending)) - {k} == live - (keys - (pending - {k}))
  {
  }

  /** Puts of different keys commute, so putAll records the same whatever order it visits the entries in. */
  lemma PutsCommute<K, V>(d: MapDeltas<K, V>, k1: K, v1: Option<V>, k2: K, v2: Option<V>)
    requires k1 != k2
    ensures PutDeltas(PutDeltas(d, k1, v1), k2, v2) == PutDeltas(PutDeltas(d, k2, v2), k1, v1)
  {
    var forgive1, forgive2 := Lookup(d.removed, k1) == v1, Lookup(d.removed, k2) == v2;
    assert Lookup(d.removed - {k1}, k2) == Lookup(d.removed, k2);
    assert Lookup(d.removed - {k2}, k1) == Lookup(d.removed, k1);
    if forgive1 && forgive2 {
      assert d.removed - {k1} - {k2} == d.removed - {k2} - {k1};
    } else if !forgive1 && !forgive2 {
      assert d.added[k1 := v1][k2 := v2] == d.added[k2 := v2][k1 := v1];
    }
  }

  /**
   * Cancellation: putting a non-null value for a key that is neither live
   * nor recorded, then removing it, restores the map and both deltas.
   */
  lemma PutThenRemove<K, V>(live: map<K, Option<V>>, d: MapDeltas<K, V>, k: K, v: Option<V>)
    requires k !in live && k !in d.added && k !in d.removed && v.Some?
    ensures live[k := v] - {k} == live
    ensures RemoveDeltas(PutDeltas(d, k, v), k, v) == d
  {
    assert PutDeltas(d, k, v) == MapDeltas(d.added[k := v], d.removed);
    assert d.added[k := v] - {k} == d.added;
  }

  /**
   * put never records a replaced value: from a checkpoint `k -> a`, put(k, b)
   * then remove(k) leaves both deltas empty although `k` is gone.
   */
  lemma ReplacedValueForgotten<K, V>(k: K, a: V, b: V)
    requires a != b
    ensures var checkpoint := map[k := Some(a)];
            var d := RemoveDeltas(PutDeltas(MapDeltas(map[], map[]), k, Some(b)), k, Some(b));
            d == MapDeltas(map[], map[]) && !MapLedger(checkpoint, map[], d)
  {
    var checkpoint := map[k := Some(a)];
    assert PutDeltas(MapDeltas(map[], map[]), k, Some(b)) == MapDeltas(map[k := Some(b)], map[]);
    assert map[k := Some(b)] - {k} == map[];
    assert k in (checkpoint - {}) + map[];
  }

  /** A null value put for a key new to an empty map goes unrecorded. */
  lemma NullPutUnrecorded<K, V>(k: K, none: MapDeltas<K, V>)
    requires none == MapDeltas(map[], map[])
    ensures PutDeltas(none, k, None) == none
    ensures !MapLedger(map[], map[k := None], none)
  {
    var live: map<K, Option<V>> := map[k := None];
    assert k in live && k !in (none.removed - {}) + none.added;
  }

  /** A removal the deltas do not see (the values view) always breaks the ledger. */
  lemma UntrackedRemovalLedger<K, V>(checkpoint: map<K, Option<V>>, live: map<K, Option<V>>, d: MapDeltas<K, V>, k: K)
    requires MapLedger(checkpoint, live, d) && k in live
    ensures !MapLedger(checkpoint, live - {k}, d)
  {
    assert k in (checkpoint - d.removed.Keys) + d.added;
  }

  class ChronoHashMap<K(==), V(==)> {
    var live: map<K, Option<V>>
    var added: map<K, Option<V>>
    var removed: map<K, Option<V>>
    ghost var checkpoint: map<K, Option<V>>

    function Deltas(): MapDeltas<K, V>
      reads this
    {
      MapDeltas(added, removed)
    }

    ghost predicate Ledger()
      reads this
    {
      MapLedger(checkpoint, live, Deltas())
    }

    /** `new ChronoHashMap<>()`. */
    constructor ()
      ensures live == map[] && added == map[] && removed == map[] && checkpoint == map[]
      ensures Ledger()
    {
      live, added, removed := map[], map[], map[];
      checkpoint := map[];
    }

    /** create(k1, v1, ..., k4, v4): one to four pairs, filled through `_put`, so nothing is recorded. */
    static method Create(pairs: seq<(K, Option<V>)>) returns (m: ChronoHashMap<K, V>)
      requires 1 <= |pairs| <= 4
      ensures fresh(m)
      ensures m.live == MapOf(pairs) && m.added == map[] && m.removed == map[]
      ensures m.checkpoint == m.live && m.Ledger()
    {
      m := new ChronoHashMap();
      for i := 0 to |pairs|
        invariant m.live == MapOf(pairs[..i]) && m.added == map[] && m.removed == map[]
      {
        assert pairs[..i + 1][..i] == pairs[..i];
        var _ := m.RawPut(pairs[i].0, pairs[i].1);
      }
      assert pairs[..|pairs|] == pairs;
      m.checkpoint := m.live;
    }

    /** `_put`: `HashMap.put` without touching the deltas. */
    method RawPut(k: K, v: Option<V>) returns (previous: Option<V>)
      modifies this
      ensures previous == Lookup(old(live), k) && live == old(live)[k := v]
      ensures Deltas() == old(Deltas()) && checkpoint == old(checkpoint)
    {
      previous := Lookup(live, k);
      live := live[k := v];
    }

    /** reset(): forget the recorded changes; the live map becomes the checkpoint. */
    method Reset()
      modifies this
      ensures live == old(live) && added == map[] && removed == map[]
      ensures checkpoint == live && Ledger()
    {
      added, removed := map[], map[];
      checkpoint := live;
    }

    /** put(k, v): returns the previous value (null when absent) and applies the put rule. */
    method Put(k: K, v: Option<V>) returns (previous: Option<V>)
      modifies this
      ensures previous == Lookup(old(live), k)
      ensures live == old(live)[k := v]
      ensures Deltas() == PutDeltas(old(Deltas()), k, v)
      ensures checkpoint == old(checkpoint)
      ensures old(Ledger()) ==> (Ledger() <==> PutTracked(checkpoint, old(live), old(Deltas()), k, v))
    {
      previous := Lookup(live, k);
      live := live[k := v];
      if Lookup(removed, k) == v {
        removed := removed - {k};
      } else {
        added := added[k := v];
      }
      if old(Ledger()) {
        PutLedger(checkpoint, old(live), old(Deltas()), k, v);
      }
    }

    /** putAll(m): put for each entry of `m`, in an order `HashMap` leaves unspecified. */
    method PutAll(m: map<K, Option<V>>)
      modifies this
      ensures live == old(live) + m
      ensures Deltas() == PutAllDeltas(old(Deltas()), m)
      ensures checkpoint == old(checkpoint)
    {
      var pending := m.Keys;
      while pending != {}
        invariant pending <= m.Keys
        invariant live == old(live) + (m - pending)
        invariant Deltas() == PutAllDeltas(old(Deltas()), m - pending)
        invariant checkpoint == old(checkpoint)
        decreases pending
      {
        var k :| k in pending;
        PutAllProgress(old(live), m, pending, k);
        PutAllStep(old(Deltas()), m - pending, k, m[k]);
        var _ := Put(k, m[k]);
        pending := pending - {k};
      }
      assert m - {} == m;
    }

    /**
     * remove(k): returns the removed value (null when absent); a present key
     * goes through the remove rule, an absent one changes nothing.
     */
    method Remove(k: K) returns (value: Option<V>)
      modifies this
      ensures value == Lookup(old(live), k)
      ensures live == old(live) - {k}
      ensures k in old(live) ==> Deltas() == RemoveDeltas(old(Deltas()), k, value)
      ensures k !in old(live) ==> Deltas() == old(Deltas())
      ensures checkpoint == old(checkpoint)
      ensures old(Ledger()) ==> (Ledger() <==> (k in old(live) && k !in old(added) ==> value.Some?))
    {
      var contained := k in live;
      value := Lookup(live, k);
      live := live - {k};
      if contained {
        if Lookup(added, k) == value {
          added := added - {k};
        } else {
          removed := removed[k := value];
        }
      }
      if old(Ledger()) && contained {
        RemoveLedger(checkpoint, old(live), old(Deltas()), k);
      }
    }

    /**
     * clear(): a non-empty map first drops its added keys without recording
     * them, empties `added` and copies every remaining entry into `removed`;
     * then it is emptied.
     */
    method Clear()
      modifies this
      ensures live == map[]
      ensures Deltas() == ClearDeltas(old(Deltas()), old(live))
      ensures checkpoint == old(checkpoint)
      ensures old(Ledger()) ==> Ledger() && removed == checkpoint
    {
      if live != map[] {
        var pending := added.Keys;
        while pending != {}
          invariant pending <= added.Keys
          invariant live == old(live) - (added.Keys - pending)
          invariant Deltas() == old(Deltas()) && checkpoint == old(checkpoint)
          decreases pending
        {
          var k :| k in pending;
          DropProgress(old(live), added.Keys, pending, k);
          live := live - {k};
          pending := pending - {k};
        }
        assert added.Keys - {} == added.Keys;
        added := map[];
        removed := removed + live;
      }
      live := map[];
      if old(Ledger()) {
        ClearLedger(checkpoint, old(live), old(Deltas()));
      }
    }

    /** keySet(): a fresh view over this map's keys. */
    method KeySet() returns (view: KeySet<K, V>)
      ensures fresh(view) && view.owner == this
    {
      view := new KeySet(this);
    }

    /** entrySet(): a fresh view over this map's entries. */
    method EntrySet() returns (view: EntrySet<K, V>)
      ensures fresh(view) && view.owner == this
    {
      view := new EntrySet(this);
    }

    /** values(): a fresh view over this map's values. */
    method Values() returns (view: Values<K, V>)
      ensures fresh(view) && view.owner == this
    {
      view := new Values(this);
    }
  }

  /** The keys whose entry in `live` is one of `entries`. */
  ghost function MatchedKeys<K, V>(live: map<K, Option<V>>, entries: set<Entry<K, V>>): (r: set<K>)
    ensures r <= live.Keys
  {
    set k | k in live && Entry(k, live[k]) in entries
  }

  /** One more entry looked up in `live`. */
  lemma MatchedKeysStep<K, V>(live: map<K, Option<V>>, entries: set<Entry<K, V>>, e: Entry<K, V>)
    ensures MatchedKeys(live, entries + {e})
         == MatchedKeys(live, entries) + (if e.key in live && live[e.key] == e.value then {e.key} else {})
  {
  }

  /**
   * The iterator loop of the key view on the map's state: every live key
   * is visited once, in no particular order, and those whose membership in
   * `c` is `removeInside` are removed through the iterator, which applies
   * the view rule.
   */
  method SweepKeys<K, V(==)>(live: map<K, Option<V>>, d: MapDeltas<K, V>, c: set<K>, removeInside: bool)
    returns (live': map<K, Option<V>>, d': MapDeltas<K, V>, modified: bool)
    ensures var doomed := if removeInside then live.Keys * c else live.Keys - c;
            && live' == live - doomed
            && d' == DropKeys(d, live, doomed)
            && (modified <==> doomed != {})
  {
    ghost var doomed := if removeInside then live.Keys * c else live.Keys - c;
    ghost var gone: set<K> := {};
    var pending := live.Keys;
    live', d', modified := live, d, false;
    while pending != {}
      invariant pending <= live.Keys
      invariant gone == doomed - pending
      invariant live' == live - gone
      invariant d' == DropKeys(d, live, gone)
      invariant modified <==> gone != {}
      decreases pending
    {
      var k :| k in pending;
      if (k in c) == removeInside {
        assert live'[k] == live[k];
        DropKeysStep(d, live, gone, k);
        DropOneMore(live, gone, k);
        d' := ViewRemoveDeltas(d', k, live'[k]);
        assert d' == DropKeys(d, live, gone + {k});
        live' := live' - {k};
        gone := gone + {k};
        modified := true;
      }
      pending := pending - {k};
    }
    assert gone == doomed;
  }

  /**
   * The iterator loop of the entry view on the map's state: each live
   * entry is visited once and removed when its membership in `c` is
   * `removeInside`.
   */
  method SweepEntries<K, V(==)>(live: map<K, Option<V>>, d: MapDeltas<K, V>, c: set<Entry<K, V>>, removeInside: bool)
    returns (live': map<K, Option<V>>, d': MapDeltas<K, V>, modified: bool)
    ensures var matched := MatchedKeys(live, c);
            var doomed := if removeInside then matched else live.Keys - matched;
            && live' == live - doomed
            && d' == DropKeys(d, live, doomed)
            && (modified <==> doomed != {})
  {
    ghost var matched := MatchedKeys(live, c);
    ghost var doomed := if removeInside then matched else live.Keys - matched;
    ghost var gone: set<K> := {};
    var pending := live.Keys;
    live', d', modified := live, d, false;
    while pending != {}
      invariant pending <= live.Keys
      invariant gone == doomed - pending
      invariant live' == live - gone
      invariant d' == DropKeys(d, live, gone)
      invariant modified <==> gone != {}
      decreases pending
    {
      var k :| k in pending;
      assert live'[k] == live[k];
      if (Entry(k, live'[k]) in c) == removeInside {
        DropKeysStep(d, live, gone, k);
        DropOneMore(live, gone, k);
        d' := ViewRemoveDeltas(d', k, live'[k]);
        assert d' == DropKeys(d, live, gone + {k});
        live' := live' - {k};
        gone := gone + {k};
        modified := true;
      }
      pending := pending - {k};
    }
    assert gone == doomed;
  }

  /**
   * The value view's loop on the map's state: whether some live key
   * holds a value whose membership in `c` is `removeInside`.
   */
  method FindValue<K, V(==)>(live: map<K, Option<V>>, c: seq<Option<V>>, removeInside: bool) returns (found: bool)
    ensures found <==> exists k :: k in live && (live[k] in c) == removeInside
  {
    var pending := live.Keys;
    while pending != {}
      invariant pending <= live.Keys
      invariant forall k :: k in live && k !in pending ==> (live[k] in c) != removeInside
      decreases pending
    {
      var k :| k in pending;
      if (live[k] in c) == removeInside {
        return true;
      }
      pending := pending - {k};
    }
    return false;
  }

  /**
   * keySet(): the map's keys. Removing a key, directly or through the
   * view's iterator, applies the view rule with the value the key had;
   * adding is not supported. The bulk operations are those of
   * DelegatedSet and DelegatedCollection, which go through the view's own
   * `remove` and iterator.
   */
  class KeySet<K(==), V(==)> {
    const owner: ChronoHashMap<K, V>

    constructor (owner: ChronoHashMap<K, V>)
      ensures this.owner == owner
    {
      this.owner := owner;
    }

    /** size(): forwarded to the map. */
    function Size(): nat
      reads owner
    {
      |owner.live|
    }

    /** contains(k): forwarded to the map. */
    predicate Contains(k: K)
      reads owner
    {
      k in owner.live
    }

    /** add(k): forwarded to `HashMap`'s key set, which does not support it. */
    method Add(k: K) returns (r: Result<bool>)
      ensures r == Err(UnsupportedOperation)
    {
      r := Err(UnsupportedOperation);
    }

    /**
     * addAll(c): DelegatedCollection calls `add` for each element, so the
     * first element already fails; an empty `c` changes nothing.
     */
    method AddAll(c: seq<K>) returns (r: Result<bool>)
      ensures c == [] ==> r == Ok(false)
      ensures c != [] ==> r == Err(UnsupportedOperation)
    {
      if c == [] {
        return Ok(false);
      }
      r := Add(c[0]);
    }

    /** remove(k): the value is read first; a present key is removed and goes through the view rule. */
    method Remove(k: K) returns (changed: bool)
      modifies owner
      ensures changed <==> k in old(owner.live)
      ensures owner.live == old(owner.live) - {k}
      ensures changed ==> owner.Deltas() == ViewRemoveDeltas(old(owner.Deltas()), k, old(owner.live)[k])
      ensures !changed ==> owner.Deltas() == old(owner.Deltas())
      ensures owner.checkpoint == old(owner.checkpoint)
      ensures old(owner.Ledger()) ==> owner.Ledger()
    {
      var value := Lookup(owner.live, k);
      changed := k in owner.live;
      owner.live := owner.live - {k};
      if changed {
        if k in owner.added {
          owner.added := owner.added - {k};
        } else {
          owner.removed := owner.removed[k := value];
        }
        if old(owner.Ledger()) {
          ViewRemoveLedger(owner.checkpoint, old(owner.live), old(owner.Deltas()), k);
        }
      }
    }

    /**
     * removeAll(c), DelegatedSet's two strategies: `remove` for each element
     * of `c` when the view is larger than `c`, else the view's iterator.
     * Either way every present key of `c` is removed and recorded once.
     */
    method RemoveAll(c: seq<K>) returns (modified: bool)
      modifies owner
      ensures owner.live == old(owner.live) - SetOf(c)
      ensures owner.Deltas() == DropKeys(old(owner.Deltas()), old(owner.live), old(owner.live).Keys * SetOf(c))
      ensures modified <==> old(owner.live).Keys * SetOf(c) != {}
      ensures owner.checkpoint == old(owner.checkpoint)
      ensures old(owner.Ledger()) ==> owner.Ledger()
    {
      ghost var live0, d0, doomed := owner.live, owner.Deltas(), owner.live.Keys * SetOf(c);
      ghost var ledger := owner.Ledger();
      MinusPresent(live0, SetOf(c));
      if Size() > |c| {
        modified := RemoveEach(c);
      } else {
        modified := Sweep(SetOf(c), true);
      }
      if ledger {
        DropKeysLedger(owner.checkpoint, live0, d0, doomed);
      }
    }

    /** The first strategy of DelegatedSet.removeAll: `remove(k)` for each `k` of `c`. */
    method RemoveEach(c: seq<K>) returns (modified: bool)
      modifies owner
      ensures owner.live == old(owner.live) - SetOf(c)
      ensures owner.Deltas() == DropKeys(old(owner.Deltas()), old(owner.live), old(owner.live).Keys * SetOf(c))
      ensures modified <==> old(owner.live).Keys * SetOf(c) != {}
      ensures owner.checkpoint == old(owner.checkpoint)
    {
      ghost var live0, d0 := owner.live, owner.Deltas();
      ghost var gone: set<K> := {};
      modified := false;
      for i := 0 to |c|
        invariant gone == live0.Keys * SetOf(c[..i])
        invariant owner.live == live0 - gone
        invariant owner.Deltas() == DropKeys(d0, live0, gone)
        invariant modified <==> gone != {}
        invariant owner.checkpoint == old(owner.checkpoint)
      {
        var k := c[i];
        SetOfSnoc(c, i);
        ghost var present := k in owner.live;
        if present {
          assert owner.live[k] == live0[k];
          DropKeysStep(d0, live0, gone, k);
          DropOneMore(live0, gone, k);
        }
        var changed := Remove(k);
        if present {
          gone := gone + {k};
        }
        modified := modified || changed;
      }
      assert c[..|c|] == c;
    }

    /**
     * The iterator loop of DelegatedCollection.removeAll/retainAll and
     * DelegatedSet.clear over this view: the keys whose membership in `c`
     * is `removeInside` are removed through the iterator.
     */
    method Sweep(c: set<K>, removeInside: bool) returns (modified: bool)
      modifies owner
      ensures var doomed := if removeInside then old(owner.live).Keys * c else old(owner.live).Keys - c;
              && owner.live == old(owner.live) - doomed
              && owner.Deltas() == DropKeys(old(owner.Deltas()), old(owner.live), doomed)
              && (modified <==> doomed != {})
      ensures owner.checkpoint == old(owner.checkpoint)
    {
      var live, d;
      live, d, modified := SweepKeys(owner.live, owner.Deltas(), c, removeInside);
      owner.live, owner.added, owner.removed := live, d.added, d.removed;
    }

    /** retainAll(c): the iterator loop removing every key not in `c`. */
    method RetainAll(c: seq<K>) returns (modified: bool)
      modifies owner
      ensures owner.live == old(owner.live) - (old(owner.live).Keys - SetOf(c))
      ensures owner.Deltas() == DropKeys(old(owner.Deltas()), old(owner.live), old(owner.live).Keys - SetOf(c))
      ensures modified <==> !(old(owner.live).Keys <= SetOf(c))
      ensures owner.checkpoint == old(owner.checkpoint)
      ensures old(owner.Ledger()) ==> owner.Ledger()
    {
      modified := Sweep(SetOf(c), false);
      if old(owner.Ledger()) {
        DropKeysLedger(owner.checkpoint, old(owner.live), old(owner.Deltas()), old(owner.live).Keys - SetOf(c));
      }
    }

    /** clear(): DelegatedSet's loop removes every key through the iterator, so each is recorded. */
    method Clear()
      modifies owner
      ensures owner.live == map[]
      ensures owner.Deltas() == DropKeys(old(owner.Deltas()), old(owner.live), old(owner.live).Keys)
      ensures owner.checkpoint == old(owner.checkpoint)
      ensures old(owner.Ledger()) ==> owner.Ledger()
    {
      ghost var live0, d0 := owner.live, owner.Deltas();
      ghost var ledger := owner.Ledger();
      assert live0.Keys - {} == live0.Keys;
      var _ := Sweep({}, false);
      assert owner.live.Keys == {};
      if ledger {
        DropKeysLedger(owner.checkpoint, live0, d0, live0.Keys);
      }
    }

    /** iterator(): wraps the key set's iterator so that removals are recorded. */
    method Iterator() returns (it: KeySetIterator<K, V>)
      ensures fresh(it) && it.owner == owner && it.returned == {} && it.last == None
    {
      it := new KeySetIterator(owner);
    }
  }

  /**
   * The key view's iterator. `returned` holds the keys already handed out;
   * the rest come in an order `HashMap` does not specify.
   */
  class KeySetIterator<K(==), V(==)> {
    const owner: ChronoHashMap<K, V>
    var returned: set<K>
    var last: Option<K>

    constructor (owner: ChronoHashMap<K, V>)
      ensures this.owner == owner && returned == {} && last == None
    {
      this.owner := owner;
      returned, last := {}, None;
    }

    /** hasNext(): some live key has not been returned yet. */
    predicate HasNext()
      reads this, owner
    {
      owner.live.Keys - returned != {}
    }

    /** next(): some key not yet returned; NoSuchElementException when there is none. */
    method Next() returns (r: Result<K>)
      modifies this
      ensures r.Ok? <==> old(HasNext())
      ensures r.Ok? ==> (r.value in owner.live && r.value !in old(returned)
                         && returned == old(returned) + {r.value} && last == Some(r.value))
      ensures r.Err? ==> r.failure == NoSuchElement && returned == old(returned) && last == old(last)
    {
      if owner.live.Keys - returned == {} {
        return Err(NoSuchElement);
      }
      var k :| k in owner.live.Keys - returned;
      returned := returned + {k};
      last := Some(k);
      r := Ok(k);
    }

    /**
     * remove(): reads the last key's value, removes the key, and applies
     * the view rule. Only a legal removal is modelled: the last returned key
     * is still in the map.
     */
    method Remove()
      requires last.Some? && last.value in owner.live
      modifies owner
      ensures owner.live == old(owner.live) - {last.value}
      ensures owner.Deltas() == ViewRemoveDeltas(old(owner.Deltas()), last.value, old(owner.live)[last.value])
      ensures owner.checkpoint == old(owner.checkpoint)
      ensures old(owner.Ledger()) ==> owner.Ledger()
    {
      var k := last.value;
      var value := owner.live[k];
      owner.live := owner.live - {k};
      if k in owner.added {
        owner.added := owner.added - {k};
      } else {
        owner.removed := owner.removed[k := value];
      }
      if old(owner.Ledger()) {
        ViewRemoveLedger(owner.checkpoint, old(owner.live), old(owner.Deltas()), k);
      }
    }
  }

  /**
   * entrySet(): the map's entries. Removing an entry, directly or through
   * the iterator, applies the view rule; adding is not supported. The bulk
   * operations are DelegatedSet's and DelegatedCollection's.
   */
  class EntrySet<K(==), V(==)> {
    const owner: ChronoHashMap<K, V>

    constructor (owner: ChronoHashMap<K, V>)
      ensures this.owner == owner
    {
      this.owner := owner;
    }

    /** size(): forwarded to the map. */
    function Size(): nat
      reads owner
    {
      |owner.live|
    }

    /** contains(e): the key is present with the entry's value. */
    predicate Contains(e: Entry<K, V>)
      reads owner
    {
      e.key in owner.live && owner.live[e.key] == e.value
    }

    /** add(e): forwarded to `HashMap`'s entry set, which does not support it. */
    method Add(e: Entry<K, V>) returns (r: Result<bool>)
      ensures r == Err(UnsupportedOperation)
    {
      r := Err(UnsupportedOperation);
    }

    /** addAll(c): the first `add` already fails; an empty `c` changes nothing. */
    method AddAll(c: seq<Entry<K, V>>) returns (r: Result<bool>)
      ensures c == [] ==> r == Ok(false)
      ensures c != [] ==> r == Err(UnsupportedOperation)
    {
      if c == [] {
        return Ok(false);
      }
      r := Add(c[0]);
    }

    /** remove(e): only an entry the map holds is removed; then the view rule records the entry's value. */
    method Remove(e: Entry<K, V>) returns (changed: bool)
      modifies owner
      ensures changed <==> e.key in old(owner.live) && old(owner.live)[e.key] == e.value
      ensures changed ==> owner.live == old(owner.live) - {e.key}
      ensures changed ==> owner.Deltas() == ViewRemoveDeltas(old(owner.Deltas()), e.key, e.value)
      ensures !changed ==> owner.live == old(owner.live) && owner.Deltas() == old(owner.Deltas())
      ensures owner.checkpoint == old(owner.checkpoint)
      ensures old(owner.Ledger()) ==> owner.Ledger()
    {
      changed := e.key in owner.live && owner.live[e.key] == e.value;
      if changed {
        owner.live := owner.live - {e.key};
        if e.key in owner.added {
          owner.added := owner.added - {e.key};
        } else {
          owner.removed := owner.removed[e.key := e.value];
        }
        if old(owner.Ledger()) {
          ViewRemoveLedger(owner.checkpoint, old(owner.live), old(owner.Deltas()), e.key);
        }
      }
    }

    /**
     * removeAll(c), DelegatedSet's two strategies. Either way exactly the
     * keys whose current entry occurs in `c` are removed and recorded.
     */
    method RemoveAll(c: seq<Entry<K, V>>) returns (modified: bool)
      modifies owner
      ensures owner.live == old(owner.live) - MatchedKeys(old(owner.live), SetOf(c))
      ensures owner.Deltas() == DropKeys(old(owner.Deltas()), old(owner.live), MatchedKeys(old(owner.live), SetOf(c)))
      ensures modified <==> MatchedKeys(old(owner.live), SetOf(c)) != {}
      ensures owner.checkpoint == old(owner.checkpoint)
      ensures old(owner.Ledger()) ==> owner.Ledger()
    {
      ghost var live0, d0, doomed := owner.live, owner.Deltas(), MatchedKeys(owner.live, SetOf(c));
      ghost var ledger := owner.Ledger();
      if Size() > |c| {
        modified := RemoveEach(c);
      } else {
        modified := Sweep(SetOf(c), true);
      }
      if ledger {
        DropKeysLedger(owner.checkpoint, live0, d0, doomed);
      }
    }

    /** The first strategy of DelegatedSet.removeAll: `remove(e)` for each `e` of `c`. */
    method RemoveEach(c: seq<Entry<K, V>>) returns (modified: bool)
      modifies owner
      ensures owner.live == old(owner.live) - MatchedKeys(old(owner.live), SetOf(c))
      ensures owner.Deltas() == DropKeys(old(owner.Deltas()), old(owner.live), MatchedKeys(old(owner.live), SetOf(c)))
      ensures modified <==> MatchedKeys(old(owner.live), SetOf(c)) != {}
      ensures owner.checkpoint == old(owner.checkpoint)
    {
      ghost var live0, d0 := owner.live, owner.Deltas();
      ghost var gone: set<K> := {};
      modified := false;
      for i := 0 to |c|
        invariant gone == MatchedKeys(live0, SetOf(c[..i]))
        invariant owner.live == live0 - gone
        invariant owner.Deltas() == DropKeys(d0, live0, gone)
        invariant modified <==> gone != {}
        invariant owner.checkpoint == old(owner.checkpoint)
      {
        var e := c[i];
        SetOfSnoc(c, i);
        MatchedKeysStep(live0, SetOf(c[..i]), e);
        ghost var present := e.key in owner.live && owner.live[e.key] == e.value;
        if present {
          assert owner.live[e.key] == live0[e.key];
          DropKeysStep(d0, live0, gone, e.key);
          DropOneMore(live0, gone, e.key);
        }
        var changed := Remove(e);
        if present {
          gone := gone + {e.key};
        }
        modified := modified || changed;
      }
      assert c[..|c|] == c;
    }

    /**
     * The iterator loop of removeAll/retainAll/clear over this view: the
     * entries whose membership in `c` is `removeInside` are removed
     * through the iterator.
     */
    method Sweep(c: set<Entry<K, V>>, removeInside: bool) returns (modified: bool)
      modifies owner
      ensures var matched := MatchedKeys(old(owner.live), c);
              var doomed := if removeInside then matched else old(owner.live).Keys - matched;
              && owner.live == old(owner.live) - doomed
              && owner.Deltas() == DropKeys(old(owner.Deltas()), old(owner.live), doomed)
              && (modified <==> doomed != {})
      ensures owner.checkpoint == old(owner.checkpoint)
    {
      var live, d;
      live, d, modified := SweepEntries(owner.live, owner.Deltas(), c, removeInside);
      owner.live, owner.added, owner.removed := live, d.added, d.removed;
    }

    /** retainAll(c): the iterator loop removing every entry not in `c`. */
    method RetainAll(c: seq<Entry<K, V>>) returns (modified: bool)
      modifies owner
      ensures owner.live == old(owner.live) - (old(owner.live).Keys - MatchedKeys(old(owner.live), SetOf(c)))
      ensures owner.Deltas()
           == DropKeys(old(owner.Deltas()), old(owner.live), old(owner.live).Keys - MatchedKeys(old(owner.live), SetOf(c)))
      ensures modified <==> !(old(owner.live).Keys <= MatchedKeys(old(owner.live), SetOf(c)))
      ensures owner.checkpoint == old(owner.checkpoint)
      ensures old(owner.Ledger()) ==> owner.Ledger()
    {
      modified := Sweep(SetOf(c), false);
      if old(owner.Ledger()) {
        DropKeysLedger(owner.checkpoint, old(owner.live), old(owner.Deltas()),
                       old(owner.live).Keys - MatchedKeys(old(owner.live), SetOf(c)));
      }
    }

    /** clear(): every entry is removed through the iterator and recorded. */
    method Clear()
      modifies owner
      ensures owner.live == map[]
      ensures owner.Deltas() == DropKeys(old(owner.Deltas()), old(owner.live), old(owner.live).Keys)
      ensures owner.checkpoint == old(owner.checkpoint)
      ensures old(owner.Ledger()) ==> owner.Ledger()
    {
      ghost var live0, d0 := owner.live, owner.Deltas();
      ghost var ledger := owner.Ledger();
      assert MatchedKeys(live0, {}) == {} && live0.Keys - {} == live0.Keys;
      var _ := Sweep({}, false);
      assert owner.live.Keys == {};
      if ledger {
        DropKeysLedger(owner.checkpoint, live0, d0, live0.Keys);
      }
    }

    /** iterator(): wraps the entry set's iterator so that removals are recorded. */
    method Iterator() returns (it: EntrySetIterator<K, V>)
      ensures fresh(it) && it.owner == owner && it.returned == {} && it.last == None
    {
      it := new EntrySetIterator(owner);
    }
  }

  /** The entry view's iterator; `returned` holds the keys of the entries handed out. */
  class EntrySetIterator<K(==), V(==)> {
    const owner: ChronoHashMap<K, V>
    var returned: set<K>
    var last: Option<Entry<K, V>>

    constructor (owner: ChronoHashMap<K, V>)
      ensures this.owner == owner && returned == {} && last == None
    {
      this.owner := owner;
      returned, last := {}, None;
    }

    /** hasNext(): some live entry has not been returned yet. */
    predicate HasNext()
      reads this, owner
    {
      owner.live.Keys - returned != {}
    }

    /** next(): some entry not yet returned, with its current value. */
    method Next() returns (r: Result<Entry<K, V>>)
      modifies this
      ensures r.Ok? <==> old(HasNext())
      ensures r.Ok? ==> (r.value.key in owner.live && r.value.value == owner.live[r.value.key]
                         && r.value.key !in old(returned)
                         && returned == old(returned) + {r.value.key} && last == Some(r.value))
      ensures r.Err? ==> r.failure == NoSuchElement && returned == old(returned) && last == old(last)
    {
      if owner.live.Keys - returned == {} {
        return Err(NoSuchElement);
      }
      var k :| k in owner.live.Keys - returned;
      returned := returned + {k};
      last := Some(Entry(k, owner.live[k]));
      r := Ok(Entry(k, owner.live[k]));
    }

    /**
     * remove(): removes the last entry's key and records the value that
     * entry now holds. Only a legal removal is modelled.
     */
    method Remove()
      requires last.Some? && last.value.key in owner.live
      modifies owner
      ensures owner.live == old(owner.live) - {last.value.key}
      ensures owner.Deltas() == ViewRemoveDeltas(old(owner.Deltas()), last.value.key, old(owner.live)[last.value.key])
      ensures owner.checkpoint == old(owner.checkpoint)
      ensures old(owner.Ledger()) ==> owner.Ledger()
    {
      var k := last.value.key;
      var value := owner.live[k];
      owner.live := owner.live - {k};
      if k in owner.added {
        owner.added := owner.added - {k};
      } else {
        owner.removed := owner.removed[k := value];
      }
      if old(owner.Ledger()) {
        ViewRemoveLedger(owner.checkpoint, old(owner.live), old(owner.Deltas()), k);
      }
    }
  }

  /**
   * values(): the map's values. The class only wraps the iterator, whose
   * `remove` is unsupported; `remove(v)` goes to `HashMap`'s own value
   * collection and is therefore not recorded.
   */
  class Values<K(==), V(==)> {
    const owner: ChronoHashMap<K, V>

    constructor (owner: ChronoHashMap<K, V>)
      ensures this.owner == owner
    {
      this.owner := owner;
    }

    /** size(): forwarded to the map. */
    function Size(): nat
      reads owner
    {
      |owner.live|
    }

    /** contains(v): some key holds `v`. */
    predicate Contains(v: Option<V>)
      reads owner
    {
      v in owner.live.Values
    }

    /** add(v): not supported by `HashMap`'s value collection. */
    method Add(v: Option<V>) returns (r: Result<bool>)
      ensures r == Err(UnsupportedOperation)
    {
      r := Err(UnsupportedOperation);
    }

    /** addAll(c): the first `add` already fails; an empty `c` changes nothing. */
    method AddAll(c: seq<Option<V>>) returns (r: Result<bool>)
      ensures c == [] ==> r == Ok(false)
      ensures c != [] ==> r == Err(UnsupportedOperation)
    {
      if c == [] {
        return Ok(false);
      }
      r := Add(c[0]);
    }

    /**
     * remove(v): removes one key holding `v`, whichever `HashMap`'s own
     * iteration meets first, without recording it, so a ledger that held
     * is broken exactly when something was removed.
     */
    method Remove(v: Option<V>) returns (changed: bool)
      modifies owner
      ensures changed <==> v in old(owner.live).Values
      ensures changed ==> exists k :: k in old(owner.live) && old(owner.live)[k] == v && owner.live == old(owner.live) - {k}
      ensures !changed ==> owner.live == old(owner.live)
      ensures owner.Deltas() == old(owner.Deltas()) && owner.checkpoint == old(owner.checkpoint)
      ensures old(owner.Ledger()) ==> (owner.Ledger() <==> !changed)
    {
      changed := v in owner.live.Values;
      if changed {
        var k :| k in owner.live && owner.live[k] == v;
        owner.live := owner.live - {k};
        if old(owner.Ledger()) {
          UntrackedRemovalLedger(owner.checkpoint, old(owner.live), old(owner.Deltas()), k);
        }
      }
    }

    /**
     * removeAll(c): DelegatedCollection's iterator loop. The first value
     * to remove makes the iterator throw, so the map never changes.
     */
    method RemoveAll(c: seq<Option<V>>) returns (r: Result<bool>)
      ensures r.Err? <==> exists k :: k in owner.live && owner.live[k] in c
      ensures r.Err? ==> r.failure == UnsupportedOperation
      ensures r.Ok? ==> r.value == false
    {
      r := Sweep(c, true);
    }

    /** retainAll(c): throws at the first value outside `c`; nothing changes. */
    method RetainAll(c: seq<Option<V>>) returns (r: Result<bool>)
      ensures r.Err? <==> exists k :: k in owner.live && owner.live[k] !in c
      ensures r.Err? ==> r.failure == UnsupportedOperation
      ensures r.Ok? ==> r.value == false
    {
      r := Sweep(c, false);
    }

    /** clear(): throws on a non-empty map, does nothing on an empty one. */
    method Clear() returns (r: Outcome)
      ensures r.Thrown? <==> owner.live.Keys != {}
      ensures r.Thrown? ==> r.failure == UnsupportedOperation
    {
      var it := Iterator();
      assert owner.live.Keys - it.returned == owner.live.Keys;
      r := Normal;
      if it.HasNext() {
        var _ := it.Next();
        r := it.Remove();
      }
    }

    /**
     * The loop of removeAll (`removeInside`) and retainAll: it runs until
     * a value whose membership in `c` is `removeInside`, whose removal
     * throws.
     */
    method Sweep(c: seq<Option<V>>, removeInside: bool) returns (r: Result<bool>)
      ensures r.Err? <==> exists k :: k in owner.live && (owner.live[k] in c) == removeInside
      ensures r.Err? ==> r.failure == UnsupportedOperation
      ensures r.Ok? ==> r.value == false
    {
      var hit := FindValue(owner.live, c, removeInside);
      if hit {
        var it := Iterator();
        var thrown := it.Remove();
        return Err(thrown.failure);
      }
      return Ok(false);
    }

    /** iterator(): wraps the value iterator so that `remove` is refused. */
    method Iterator() returns (it: ValuesIterator<K, V>)
      ensures fresh(it) && it.owner == owner && it.returned == {}
    {
      it := new ValuesIterator(owner);
    }
  }

  /** The value view's iterator; `returned` holds the keys whose values were handed out. */
  class ValuesIterator<K(==), V(==)> {
    const owner: ChronoHashMap<K, V>
    var returned: set<K>

    constructor (owner: ChronoHashMap<K, V>)
      ensures this.owner == owner && returned == {}
    {
      this.owner := owner;
      returned := {};
    }

    /** hasNext(): some live key's value has not been returned yet. */
    predicate HasNext()
      reads this, owner
    {
      owner.live.Keys - returned != {}
    }

    /** next(): the value of some key not yet visited. */
    method Next() returns (r: Result<Option<V>>)
      modifies this
      ensures r.Ok? <==> old(HasNext())
      ensures r.Ok? ==> exists k :: (k in owner.live && k !in old(returned) && returned == old(returned) + {k}
                                     && r.value == owner.live[k])
      ensures r.Err? ==> r.failure == NoSuchElement && returned == old(returned)
    {
      if owner.live.Keys - returned == {} {
        return Err(NoSuchElement);
      }
      var k :| k in owner.live.Keys - returned;
      returned := returned + {k};
      r := Ok(owner.live[k]);
    }

    /** remove(): always refused. */
    method Remove() returns (r: Outcome)
      ensures r == Thrown(UnsupportedOperation)
    {
      r := Thrown(UnsupportedOperation);
    }
  }
}
