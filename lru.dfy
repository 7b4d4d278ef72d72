/**
 * The `lru_cache` method decorator of seismiqb/src/utils.py: a per-instance least-recently-used
 * cache. For every instance it keeps an ordered dictionary from call keys to results (oldest
 * first), an `is_full` flag and hit/miss counters.
 *
 * The decorated function itself is outside the model: the value it would return is a parameter of
 * `Call`, used only when the cache does not answer.
 */
module LruCache {
  import opened Wrappers
  import opened NestedValues

  // ---------------------------------------------------------------------------------------------
  // make_key

  /** A call key: the flattened instance, arguments, keyword arguments and attribute hashes. */
  type Key = seq<Atom>

  /** Each keyword argument `k=v` becomes the pair `(k, v)`. */
  function KwargItems(kwargs: seq<Entry<Nested>>): seq<Nested>
  {
    seq(|kwargs|, j requires 0 <= j < |kwargs| => Tuple([Leaf(Str(kwargs[j].0)), kwargs[j].1]))
  }

  function HashItems(hashes: seq<string>): seq<Nested>
  {
    seq(|hashes|, j requires 0 <= j < |hashes| => Leaf(Str(hashes[j])))
  }

  /** The list that `make_key` flattens: instance, positional arguments, sorted keyword pairs, hashes. */
  function KeyItems(instance: nat, args: seq<Nested>, kwargs: seq<Entry<Nested>>, hashes: seq<string>)
    : seq<Nested>
  {
    [Leaf(Ref(instance))] + args + KwargItems(SortEntries(kwargs)) + HashItems(hashes)
  }

  /**
   * `make_key`: `hashes` are the `stable_hash` digests of the instance's cache attributes (empty
   * when the decorator has none).
   */
  function MakeKey(instance: nat, args: seq<Nested>, kwargs: seq<Entry<Nested>>, hashes: seq<string>)
    : Key
  {
    Flatten(List(KeyItems(instance, args, kwargs, hashes)))
  }

  /** A key starts with its instance, so two instances never share a key. */
  lemma MakeKeyStartsWithInstance(instance: nat, args: seq<Nested>, kwargs: seq<Entry<Nested>>,
                                  hashes: seq<string>)
    ensures var key := MakeKey(instance, args, kwargs, hashes); |key| > 0 && key[0] == Ref(instance)
  {
    var items := KeyItems(instance, args, kwargs, hashes);
    var head := [Leaf(Ref(instance))];
    FlattenConcat(items, []);
    FlattenConcat(head, items[1..]);
    assert items == head + items[1..];
    var t := Tuple(head);
    assert t.items[0] == Leaf(Ref(instance));
    assert FlattenItems(t, 1) == [];
    assert Flatten(t) == FlattenItems(t, 0) == [Ref(instance)] + FlattenItems(t, 1);
  }

  /** Keyword arguments are sorted by name, so the order they are passed in does not matter. */
  lemma MakeKeyKwargOrderIrrelevant(instance: nat, args: seq<Nested>, kw1: seq<Entry<Nested>>,
                                    kw2: seq<Entry<Nested>>, hashes: seq<string>)
    requires DistinctKeys(kw1) && multiset(kw1) == multiset(kw2)
    ensures MakeKey(instance, args, kw1, hashes) == MakeKey(instance, args, kw2, hashes)
  {
    SortEntriesSorted(kw1);
    SortEntriesSorted(kw2);
    SortEntriesDistinct(kw1);
    SortedArrangementUnique(SortEntries(kw1), SortEntries(kw2));
  }

  /** A tuple among a sequence of items flattens like its items spliced in its place. */
  lemma SpliceTuple(p: seq<Nested>, t: seq<Nested>, q: seq<Nested>)
    ensures Flatten(Tuple(p + [Tuple(t)] + q)) == Flatten(Tuple(p + t + q))
  {
    FlattenConcat(p + [Tuple(t)], q);
    FlattenConcat(p, [Tuple(t)]);
    FlattenConcat(p + t, q);
    FlattenConcat(p, t);
    var one := Tuple([Tuple(t)]);
    assert FlattenItems(one, 1) == [];
    assert Flatten(one) == Flatten(Tuple(t)) + FlattenItems(one, 1);
  }

  /**
   * Keys are flattened, so a call with a tuple argument and a call with that tuple's items as
   * separate arguments share one cache entry.
   */
  lemma MakeKeyFlattensArguments(instance: nat, p: seq<Nested>, t: seq<Nested>, q: seq<Nested>,
                                 kwargs: seq<Entry<Nested>>, hashes: seq<string>)
    ensures MakeKey(instance, p + [Tuple(t)] + q, kwargs, hashes)
         == MakeKey(instance, p + t + q, kwargs, hashes)
  {
    var head := [Leaf(Ref(instance))] + p;
    var tail := q + KwargItems(SortEntries(kwargs)) + HashItems(hashes);
    assert KeyItems(instance, p + [Tuple(t)] + q, kwargs, hashes) == head + [Tuple(t)] + tail;
    assert KeyItems(instance, p + t + q, kwargs, hashes) == head + t + tail;
    FlattenConcat(head + [Tuple(t)] + tail, []);
    FlattenConcat(head + t + tail, []);
    SpliceTuple(head, t, tail);
  }

  // ---------------------------------------------------------------------------------------------
  // One instance's ordered dictionary

  /** The `hit`/`miss` counters of one instance. */
  datatype Stats = Stats(hit: nat, miss: nat)

  /** `OrderedDict.get`. */
  function Get<V>(es: seq<(Key, V)>, key: Key): Option<V>
  {
    if |es| == 0 then None else if es[0].0 == key then Some(es[0].1) else Get(es[1..], key)
  }

  /** `del d[key]` for a present key. */
  function Remove<V>(es: seq<(Key, V)>, key: Key): seq<(Key, V)>
  {
    if |es| == 0 then [] else if es[0].0 == key then es[1..] else [es[0]] + Remove(es[1..], key)
  }

  /** `get` finds a key exactly when some entry holds it, and then returns that entry's value. */
  lemma {:induction false} GetFinds<V>(es: seq<(Key, V)>, key: Key)
    requires DistinctKeys(es)
    ensures Get(es, key).None? <==> forall p :: 0 <= p < |es| ==> es[p].0 != key
    ensures forall p :: 0 <= p < |es| && es[p].0 == key ==> Get(es, key) == Some(es[p].1)
  {
    if |es| > 0 {
      assert DistinctKeys(es[1..]) by {
        forall p, q | 0 <= p < q < |es| - 1 ensures es[1..][p].0 != es[1..][q].0 {
          assert es[1..][p] == es[p + 1] && es[1..][q] == es[q + 1];
        }
      }
      GetFinds(es[1..], key);
      forall p | 0 < p < |es| ensures es[p] == es[1..][p - 1] { }
    }
  }

  /** Deleting the entry at position `p` keeps every other entry, in order. */
  lemma {:induction false} RemoveAt<V>(es: seq<(Key, V)>, p: nat)
    requires DistinctKeys(es) && p < |es|
    ensures Remove(es, es[p].0) == es[..p] + es[p + 1..]
  {
    if p > 0 {
      assert es[0].0 != es[p].0;
      assert DistinctKeys(es[1..]) by {
        forall i, j | 0 <= i < j < |es| - 1 ensures es[1..][i].0 != es[1..][j].0 {
          assert es[1..][i] == es[i + 1] && es[1..][j] == es[j + 1];
        }
      }
      RemoveAt(es[1..], p - 1);
      assert es[1..][p - 1] == es[p];
      assert es[..p] == [es[0]] + es[1..][..p - 1];
      assert es[p + 1..] == es[1..][p..];
    }
  }

  /** The state one instance has in the three per-instance dictionaries. */
  datatype Slot<V> = Slot(entries: seq<(Key, V)>, isFull: bool, stats: Stats)

  function EmptySlot<V>(): Slot<V>
  {
    Slot([], false, Stats(0, 0))
  }

  /** The most entries an instance ever holds: `maxsize`, but one when `maxsize` is below one. */
  function Capacity(maxsize: int): nat
  {
    if maxsize >= 1 then maxsize else 1
  }

  /** What holds of every instance between calls: distinct keys, bounded size, `is_full` in step. */
  predicate SlotOk<V>(slot: Slot<V>, maxsize: int)
  {
    && DistinctKeys(slot.entries)
    && |slot.entries| <= Capacity(maxsize)
    && (slot.isFull <==> |slot.entries| > 0 && |slot.entries| >= maxsize)
  }

  /**
   * One decorated call with caching on, for one instance: the instance's new state and the value
   * returned. A hit moves the entry to the most recent end; a miss stores `computed`, first
   * evicting the oldest entry when the instance is full.
   */
  function CachedCall<V>(slot: Slot<V>, key: Key, computed: V, maxsize: int): (Slot<V>, V)
    requires SlotOk(slot, maxsize)
  {
    match Get(slot.entries, key)
    case Some(v) =>
      (Slot(Remove(slot.entries, key) + [(key, v)], slot.isFull,
            Stats(slot.stats.hit + 1, slot.stats.miss)), v)
    case None =>
      var stats := Stats(slot.stats.hit, slot.stats.miss + 1);
      if slot.isFull then
        (Slot(slot.entries[1..] + [(key, computed)], slot.isFull, stats), computed)
      else
        var es := slot.entries + [(key, computed)];
        (Slot(es, |es| >= maxsize, stats), computed)
  }

  lemma UniqueAppend<V>(es: seq<(Key, V)>, key: Key, v: V)
    requires DistinctKeys(es) && forall p :: 0 <= p < |es| ==> es[p].0 != key
    ensures DistinctKeys(es + [(key, v)])
  {
    var r := es + [(key, v)];
    forall p, q | 0 <= p < q < |r| ensures r[p].0 != r[q].0 {
      assert r[p] == es[p];
    }
  }

  /** Without its entry at `p`, a dictionary keeps distinct keys and no longer holds that key. */
  lemma UniqueWithout<V>(es: seq<(Key, V)>, p: nat)
    requires DistinctKeys(es) && p < |es|
    ensures var rest := es[..p] + es[p + 1..];
      DistinctKeys(rest) && forall i :: 0 <= i < |rest| ==> rest[i].0 != es[p].0
  {
    var rest := es[..p] + es[p + 1..];
    forall i | 0 <= i < |rest| ensures rest[i] == es[if i < p then i else i + 1] { }
  }

  /** A cached call keeps the instance's invariant: in particular it never exceeds `maxsize`. */
  lemma CachedCallKeepsSlotOk<V>(slot: Slot<V>, key: Key, computed: V, maxsize: int)
    requires SlotOk(slot, maxsize)
    ensures SlotOk(CachedCall(slot, key, computed, maxsize).0, maxsize)
    ensures maxsize >= 1 ==> |CachedCall(slot, key, computed, maxsize).0.entries| <= maxsize
  {
    var es := slot.entries;
    GetFinds(es, key);
    if Get(es, key).Some? {
      var p :| 0 <= p < |es| && es[p].0 == key;
      RemoveAt(es, p);
      UniqueWithout(es, p);
      UniqueAppend(es[..p] + es[p + 1..], key, Get(es, key).value);
    } else if slot.isFull {
      TailDistinct(es);
      assert forall i :: 0 <= i < |es| - 1 ==> es[1..][i] == es[i + 1];
      UniqueAppend(es[1..], key, computed);
    } else {
      UniqueAppend(es, key, computed);
    }
  }

  /** A hit returns the stored value, moves its entry to the end, keeps the others in order. */
  lemma CachedCallHit<V>(slot: Slot<V>, key: Key, computed: V, maxsize: int, p: nat)
    requires SlotOk(slot, maxsize) && p < |slot.entries| && slot.entries[p].0 == key
    ensures var (s, v) := CachedCall(slot, key, computed, maxsize);
      && v == slot.entries[p].1
      && s.entries == slot.entries[..p] + slot.entries[p + 1..] + [slot.entries[p]]
      && s.isFull == slot.isFull
      && s.stats == Stats(slot.stats.hit + 1, slot.stats.miss)
  {
    GetFinds(slot.entries, key);
    RemoveAt(slot.entries, p);
  }

  /**
   * A miss returns the computed value and counts a miss. A full instance loses exactly its oldest
   * entry and keeps its size; every other stored call is still found with its value.
   */
  lemma CachedCallMiss<V>(slot: Slot<V>, key: Key, computed: V, maxsize: int)
    requires SlotOk(slot, maxsize) && forall p :: 0 <= p < |slot.entries| ==> slot.entries[p].0 != key
    ensures var (s, v) := CachedCall(slot, key, computed, maxsize);
      && v == computed
      && s.stats == Stats(slot.stats.hit, slot.stats.miss + 1)
      && (slot.isFull ==>
            && |s.entries| == |slot.entries|
            && Get(s.entries, slot.entries[0].0).None?
            && forall p :: 1 <= p < |slot.entries| ==> Get(s.entries, slot.entries[p].0) == Some(slot.entries[p].1))
      && (!slot.isFull ==> |s.entries| == |slot.entries| + 1 && s.entries[..|slot.entries|] == slot.entries)
  {
    var es := slot.entries;
    GetFinds(es, key);
    CachedCallKeepsSlotOk(slot, key, computed, maxsize);
    var s := CachedCall(slot, key, computed, maxsize).0;
    if slot.isFull {
      var r := s.entries;
      assert r == es[1..] + [(key, computed)];
      GetFinds(r, es[0].0);
      forall i | 0 <= i < |r| ensures r[i].0 != es[0].0 {
        if i < |r| - 1 {
          assert r[i] == es[i + 1];
        }
      }
      forall p | 1 <= p < |es| ensures Get(r, es[p].0) == Some(es[p].1) {
        assert r[p - 1] == es[p];
        GetFinds(r, es[p].0);
      }
    } else {
      assert s.entries == es + [(key, computed)];
    }
  }

  /** After a cached call the key is stored with the value the call returned. */
  lemma CachedCallRemembers<V>(slot: Slot<V>, key: Key, computed: V, maxsize: int)
    requires SlotOk(slot, maxsize)
    ensures var (s, v) := CachedCall(slot, key, computed, maxsize);
      Get(s.entries, key) == Some(v) && s.stats.hit + s.stats.miss == slot.stats.hit + slot.stats.miss + 1
  {
    CachedCallKeepsSlotOk(slot, key, computed, maxsize);
    var (s, v) := CachedCall(slot, key, computed, maxsize);
    assert s.entries[|s.entries| - 1] == (key, v);
    GetFinds(s.entries, key);
  }

  /** Calling twice with one key: the second call is a hit and returns the first call's value. */
  lemma CachedCallTwice<V>(slot: Slot<V>, key: Key, first: V, second: V, maxsize: int)
    requires SlotOk(slot, maxsize)
    ensures var (s1, v1) := CachedCall(slot, key, first, maxsize);
      SlotOk(s1, maxsize) &&
      var (s2, v2) := CachedCall(s1, key, second, maxsize);
      v2 == v1 && s2.stats == Stats(s1.stats.hit + 1, s1.stats.miss)
  {
    CachedCallKeepsSlotOk(slot, key, first, maxsize);
    CachedCallRemembers(slot, key, first, maxsize);
  }

  // ---------------------------------------------------------------------------------------------
  // The decorator object

  /** The `attributes` argument: one name, a sequence of names, or anything else (no attributes). */
  datatype Attributes = NoAttributes | Name(name: string) | Names(names: seq<string>)

  function AttributeList(a: Attributes): seq<string>
  {
    match a
    case NoAttributes => []
    case Name(n) => [n]
    case Names(ns) => ns
  }

  /**
   * An `lru_cache` decorator applied to one method. Instances are object identities; the three
   * per-instance dictionaries default to an empty cache, `False` and zero counters.
   */
  class Cache<V> {
    const maxsize: int
    const attributes: seq<string>
    const applyByDefault: bool
    var cache: map<nat, seq<(Key, V)>>
    var isFull: map<nat, bool>
    var stats: map<nat, Stats>
    /** Each instance's `_cached_attributes`: the names of its decorated methods called so far. */
    var cachedMethods: map<nat, set<string>>

    /** The state of one instance, with the dictionaries' defaults for an unseen instance. */
    function SlotOf(instance: nat): Slot<V>
      reads this
    {
      Slot(if instance in cache then cache[instance] else [],
           instance in isFull && isFull[instance],
           if instance in stats then stats[instance] else Stats(0, 0))
    }

    ghost predicate Valid()
      reads this
    {
      forall instance: nat :: SlotOk(SlotOf(instance), maxsize)
    }

    /** Whether a call applies the cache: the `use_cache` keyword if given, else the default. */
    function UsesCache(useCache: Option<bool>): bool
    {
      if useCache.Some? then useCache.value else applyByDefault
    }

    constructor(maxsize: int, attributes: Attributes, applyByDefault: bool)
      ensures this.maxsize == maxsize && this.attributes == AttributeList(attributes)
      ensures this.applyByDefault == applyByDefault
      ensures cache == map[] && isFull == map[] && stats == map[] && cachedMethods == map[]
      ensures Valid()
    {
      this.maxsize := maxsize;
      this.attributes := AttributeList(attributes);
      this.applyByDefault := applyByDefault;
      cache := map[];
      isFull := map[];
      stats := map[];
      cachedMethods := map[];
    }

    /** `reset`: clears every instance, or only the given one. */
    method Reset(instance: Option<nat>)
      requires Valid()
      modifies this
      ensures Valid()
      ensures cachedMethods == old(cachedMethods)
      ensures instance.None? ==> cache == map[] && isFull == map[] && stats == map[]
      ensures instance.Some? ==>
        && cache == old(cache)[instance.value := []]
        && isFull == old(isFull)[instance.value := false]
        && stats == old(stats)[instance.value := Stats(0, 0)]
      ensures forall i: nat :: SlotOf(i) == if instance.None? || instance.value == i then EmptySlot() else old(SlotOf(i))
    {
      if instance.None? {
        cache := map[];
        isFull := map[];
        stats := map[];
      } else {
        cache := cache[instance.value := []];
        isFull := isFull[instance.value := false];
        stats := stats[instance.value := Stats(0, 0)];
      }
      forall i: nat ensures SlotOk(SlotOf(i), maxsize) {
        if instance.Some? && instance.value != i {
          assert SlotOf(i) == old(SlotOf(i));
        }
      }
    }

    /**
     * The decorated method called on `instance`. `computed` is what the undecorated method returns
     * for these arguments; `hashes` are the digests of the instance's cache attributes.
     */
    method Call(instance: nat, funcName: string, args: seq<Nested>, kwargs: seq<Entry<Nested>>,
                useCache: Option<bool>, hashes: seq<string>, computed: V) returns (result: V)
      requires Valid() && |hashes| == |attributes|
      modifies this
      ensures Valid()
      ensures cachedMethods == old(cachedMethods)[instance :=
        (if instance in old(cachedMethods) then old(cachedMethods)[instance] else {}) + {funcName}]
      ensures !UsesCache(useCache) ==>
        result == computed && cache == old(cache) && isFull == old(isFull) && stats == old(stats)
      ensures UsesCache(useCache) ==>
        var r := CachedCall(old(SlotOf(instance)), MakeKey(instance, args, kwargs, hashes), computed, maxsize);
        && result == r.1
        && SlotOf(instance) == r.0
        && forall i: nat :: i != instance ==> SlotOf(i) == old(SlotOf(i))
    {
      var methods := if instance in cachedMethods then cachedMethods[instance] else {};
      cachedMethods := cachedMethods[instance := methods + {funcName}];
      assert Valid() by {
        forall i: nat ensures SlotOk(SlotOf(i), maxsize) {
          assert SlotOf(i) == old(SlotOf(i));
        }
      }
      if !UsesCache(useCache) {
        return computed;
      }
      var key := MakeKey(instance, args, kwargs, hashes);
      result := Lookup(instance, key, computed);
    }

    /** The caching logic of a call that applies the cache, for an already built key. */
    method Lookup(instance: nat, key: Key, computed: V) returns (result: V)
      requires Valid()
      modifies this
      ensures Valid()
      ensures cachedMethods == old(cachedMethods)
      ensures var r := CachedCall(old(SlotOf(instance)), key, computed, maxsize);
        && result == r.1
        && SlotOf(instance) == r.0
        && forall i: nat :: i != instance ==> SlotOf(i) == old(SlotOf(i))
    {
      var slot := SlotOf(instance);
      CachedCallKeepsSlotOk(slot, key, computed, maxsize);
      var found := Get(slot.entries, key);
      if found.Some? {
        cache := cache[instance := Remove(slot.entries, key) + [(key, found.value)]];
        stats := stats[instance := Stats(slot.stats.hit + 1, slot.stats.miss)];
        result := found.value;
      } else {
        result := computed;
        stats := stats[instance := Stats(slot.stats.hit, slot.stats.miss + 1)];
        if slot.isFull {
          // popitem(last=False), then store
          cache := cache[instance := slot.entries[1..] + [(key, result)]];
        } else {
          var es := slot.entries + [(key, result)];
          cache := cache[instance := es];
          isFull := isFull[instance := |es| >= maxsize];
        }
      }
      assert SlotOf(instance) == CachedCall(slot, key, computed, maxsize).0;
      forall i: nat ensures SlotOk(SlotOf(i), maxsize) {
        if i != instance {
          assert SlotOf(i) == old(SlotOf(i));
        }
      }
    }
  }
}
