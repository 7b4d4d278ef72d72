/**
 * Small pure helpers of seismiqb/src/utils.py: `flatten_nested` (leaves of nested tuples, lists and
 * dicts, dict entries in ascending key order), `infer_tuple` (default-filling of a 3-tuple) and
 * `IndexedDict.__getitem__` (an integer subscript is a position in insertion order).
 */
module NestedValues {
  import opened Wrappers

  // ---------------------------------------------------------------------------------------------
  // String keys in Python's order

  /** Python's `<=` on strings: lexicographic on code points. */
  predicate KeyLe(a: string, b: string)
    decreases |a|
  {
    |a| == 0 || (|b| > 0 && (a[0] < b[0] || (a[0] == b[0] && KeyLe(a[1..], b[1..]))))
  }

  lemma {:induction false} KeyLeRefl(a: string)
    ensures KeyLe(a, a)
    decreases |a|
  {
    if |a| > 0 {
      KeyLeRefl(a[1..]);
    }
  }

  lemma {:induction false} KeyLeTotal(a: string, b: string)
    ensures KeyLe(a, b) || KeyLe(b, a)
    decreases |a|
  {
    if |a| > 0 && |b| > 0 && a[0] == b[0] {
      KeyLeTotal(a[1..], b[1..]);
    }
  }

  lemma {:induction false} KeyLeTrans(a: string, b: string, c: string)
    requires KeyLe(a, b) && KeyLe(b, c)
    ensures KeyLe(a, c)
    decreases |a|
  {
    if |a| > 0 && |b| > 0 && |c| > 0 && a[0] == b[0] && b[0] == c[0] {
      KeyLeTrans(a[1..], b[1..], c[1..]);
    }
  }

  lemma {:induction false} KeyLeAntisymmetric(a: string, b: string)
    requires KeyLe(a, b) && KeyLe(b, a)
    ensures a == b
    decreases |a|
  {
    if |a| > 0 {
      KeyLeAntisymmetric(a[1..], b[1..]);
      assert a == [a[0]] + a[1..] && b == [b[0]] + b[1..];
    }
  }

  // ---------------------------------------------------------------------------------------------
  // `sorted(d.items())`

  type Entry<V> = (string, V)

  predicate KeysSorted<V>(es: seq<Entry<V>>)
  {
    forall i, j :: 0 <= i < j < |es| ==> KeyLe(es[i].0, es[j].0)
  }

  /** No key occurs twice among the entries. */
  predicate DistinctKeys<K(==), V>(es: seq<(K, V)>)
  {
    forall i, j :: 0 <= i < j < |es| ==> es[i].0 != es[j].0
  }

  /** Inserts an entry before the first entry whose key is not smaller. */
  function InsertEntry<V>(s: seq<Entry<V>>, e: Entry<V>): seq<Entry<V>>
  {
    if |s| == 0 || KeyLe(e.0, s[0].0) then [e] + s else [s[0]] + InsertEntry(s[1..], e)
  }

  /** Sorts entries by key; a dict's keys are distinct, so its values never take part. */
  function SortEntries<V>(es: seq<Entry<V>>): (r: seq<Entry<V>>)
    ensures multiset(r) == multiset(es)
  {
    if |es| == 0 then []
    else
      var init := SortEntries(es[..|es| - 1]);
      InsertEntryMultiset(init, es[|es| - 1]);
      assert es == es[..|es| - 1] + [es[|es| - 1]];
      InsertEntry(init, es[|es| - 1])
  }

  lemma {:induction false} InsertEntryMultiset<V>(s: seq<Entry<V>>, e: Entry<V>)
    ensures multiset(InsertEntry(s, e)) == multiset(s) + multiset{e}
  {
    if |s| > 0 && !KeyLe(e.0, s[0].0) {
      InsertEntryMultiset(s[1..], e);
      assert s == [s[0]] + s[1..];
    }
  }

  /** Sorting neither adds nor drops entries. */
  lemma SortEntriesMembers<V>(es: seq<Entry<V>>)
    ensures forall e :: e in SortEntries(es) <==> e in es
  {
    forall e ensures e in SortEntries(es) <==> e in es {
      assert e in SortEntries(es) <==> e in multiset(SortEntries(es));
    }
  }

  lemma {:induction false} InsertEntryMember<V>(s: seq<Entry<V>>, e: Entry<V>, x: Entry<V>)
    requires x in InsertEntry(s, e)
    ensures x == e || x in s
  {
    if |s| > 0 && !KeyLe(e.0, s[0].0) && x != s[0] {
      InsertEntryMember(s[1..], e, x);
    }
  }

  lemma {:induction false} InsertEntrySorted<V>(s: seq<Entry<V>>, e: Entry<V>)
    requires KeysSorted(s)
    ensures KeysSorted(InsertEntry(s, e))
  {
    if |s| > 0 && !KeyLe(e.0, s[0].0) {
      var rest := InsertEntry(s[1..], e);
      assert KeysSorted(s[1..]) by {
        forall p, q | 0 <= p < q < |s| - 1 ensures KeyLe(s[1..][p].0, s[1..][q].0) {
          assert s[1..][p] == s[p + 1] && s[1..][q] == s[q + 1];
        }
      }
      InsertEntrySorted(s[1..], e);
      KeyLeTotal(e.0, s[0].0);
      forall x | x in rest ensures KeyLe(s[0].0, x.0) {
        InsertEntryMember(s[1..], e, x);
        if x != e {
          var k :| 0 <= k < |s[1..]| && s[1..][k] == x;
          assert s[1..][k] == s[k + 1];
        }
      }
      var r := [s[0]] + rest;
      assert InsertEntry(s, e) == r;
      forall i, j | 0 <= i < j < |r| ensures KeyLe(r[i].0, r[j].0) {
        if i > 0 {
          assert r[i] == rest[i - 1] && r[j] == rest[j - 1];
        } else {
          assert r[j] == rest[j - 1] && rest[j - 1] in rest;
        }
      }
    } else if |s| > 0 {
      forall j | 1 <= j < |s| + 1 ensures KeyLe(e.0, ([e] + s)[j].0) {
        if j > 1 {
          KeyLeTrans(e.0, s[0].0, s[j - 1].0);
        }
      }
    }
  }

  lemma {:induction false} InsertEntryDistinct<V>(s: seq<Entry<V>>, e: Entry<V>)
    requires DistinctKeys(s) && forall x :: x in s ==> x.0 != e.0
    ensures DistinctKeys(InsertEntry(s, e))
  {
    if |s| > 0 && !KeyLe(e.0, s[0].0) {
      var rest := InsertEntry(s[1..], e);
      assert DistinctKeys(s[1..]) by {
        forall p, q | 0 <= p < q < |s| - 1 ensures s[1..][p].0 != s[1..][q].0 {
          assert s[1..][p] == s[p + 1] && s[1..][q] == s[q + 1];
        }
      }
      InsertEntryDistinct(s[1..], e);
      forall x | x in rest ensures x.0 != s[0].0 {
        InsertEntryMember(s[1..], e, x);
        if x != e {
          var k :| 0 <= k < |s[1..]| && s[1..][k] == x;
          assert s[1..][k] == s[k + 1];
        }
      }
      var r := [s[0]] + rest;
      assert InsertEntry(s, e) == r;
      forall i, j | 0 <= i < j < |r| ensures r[i].0 != r[j].0 {
        if i > 0 {
          assert r[i] == rest[i - 1] && r[j] == rest[j - 1];
        } else {
          assert r[j] == rest[j - 1] && rest[j - 1] in rest;
        }
      }
    } else {
      assert forall j :: 0 < j < |s| + 1 ==> ([e] + s)[j] == s[j - 1];
    }
  }

  /** Sorting keeps the keys distinct. */
  lemma {:induction false} SortEntriesDistinct<V>(es: seq<Entry<V>>)
    requires DistinctKeys(es)
    ensures DistinctKeys(SortEntries(es))
  {
    if |es| > 0 {
      var init := es[..|es| - 1];
      assert DistinctKeys(init);
      SortEntriesDistinct(init);
      forall x | x in SortEntries(init) ensures x.0 != es[|es| - 1].0 {
        assert x in multiset(SortEntries(init));
        var k :| 0 <= k < |init| && init[k] == x;
      }
      InsertEntryDistinct(SortEntries(init), es[|es| - 1]);
    }
  }

  /** `sorted(items)`: ascending keys, and the same entries. */
  lemma {:induction false} SortEntriesSorted<V>(es: seq<Entry<V>>)
    ensures KeysSorted(SortEntries(es)) && multiset(SortEntries(es)) == multiset(es)
  {
    if |es| > 0 {
      SortEntriesSorted(es[..|es| - 1]);
      InsertEntrySorted(SortEntries(es[..|es| - 1]), es[|es| - 1]);
    }
  }

  lemma TailSorted<V>(a: seq<Entry<V>>)
    requires |a| > 0 && KeysSorted(a)
    ensures KeysSorted(a[1..])
  {
    forall p, q | 0 <= p < q < |a| - 1 ensures KeyLe(a[1..][p].0, a[1..][q].0) {
      assert a[1..][p] == a[p + 1] && a[1..][q] == a[q + 1];
    }
  }

  lemma TailDistinct<K, V>(a: seq<(K, V)>)
    requires |a| > 0 && DistinctKeys(a)
    ensures DistinctKeys(a[1..])
  {
    forall p, q | 0 <= p < q < |a| - 1 ensures a[1..][p].0 != a[1..][q].0 {
      assert a[1..][p] == a[p + 1] && a[1..][q] == a[q + 1];
    }
  }

  /** Two key-sorted arrangements of the same distinct-keyed entries start alike. */
  lemma SameHead<V>(a: seq<Entry<V>>, b: seq<Entry<V>>)
    requires |a| > 0 && KeysSorted(a) && KeysSorted(b) && DistinctKeys(a)
    requires multiset(a) == multiset(b)
    ensures |b| > 0 && a[0] == b[0]
  {
    assert a[0] in multiset(b);
    var i :| 0 <= i < |b| && b[i] == a[0];
    assert b[0] in multiset(a);
    var j :| 0 <= j < |a| && a[j] == b[0];
    KeyLeRefl(a[0].0);
    KeyLeRefl(b[0].0);
    assert KeyLe(b[0].0, b[i].0);
    assert KeyLe(a[0].0, a[j].0);
    KeyLeAntisymmetric(a[0].0, b[0].0);
  }

  lemma TailMultiset<V>(a: seq<Entry<V>>, b: seq<Entry<V>>)
    requires |a| > 0 && |b| > 0 && a[0] == b[0] && multiset(a) == multiset(b)
    ensures multiset(a[1..]) == multiset(b[1..])
  {
    assert a == [a[0]] + a[1..] && b == [b[0]] + b[1..];
    assert multiset(a) == multiset{a[0]} + multiset(a[1..]);
    assert multiset(b) == multiset{a[0]} + multiset(b[1..]);
    assert multiset(a[1..]) == multiset(a) - multiset{a[0]};
    assert multiset(b[1..]) == multiset(b) - multiset{a[0]};
  }

  /** Entries with distinct keys have exactly one arrangement in ascending key order. */
  lemma {:induction false} SortedArrangementUnique<V>(a: seq<Entry<V>>, b: seq<Entry<V>>)
    requires KeysSorted(a) && KeysSorted(b) && DistinctKeys(a) && multiset(a) == multiset(b)
    ensures a == b
    decreases |a|
  {
    if |a| == 0 {
      assert |b| == |multiset(b)| == 0;
    } else {
      SameHead(a, b);
      TailMultiset(a, b);
      TailSorted(a);
      TailSorted(b);
      TailDistinct(a);
      SortedArrangementUnique(a[1..], b[1..]);
      assert a == [a[0]] + a[1..] && b == [b[0]] + b[1..];
    }
  }

  // ---------------------------------------------------------------------------------------------
  // flatten_nested

  /** A value that is not a tuple, list or dict; `Ref` is any other object, by identity. */
  datatype Atom = Int(i: int) | Str(s: string) | NoneValue | Ref(id: nat)

  /** Nested tuples, lists and dicts; a dict is its entries in insertion order, with string keys. */
  datatype Nested =
    | Leaf(atom: Atom)
    | Tuple(items: seq<Nested>)
    | List(items: seq<Nested>)
    | Dict(entries: seq<Entry<Nested>>)

  /** `flatten_nested`: the leaves from left to right; a non-container becomes a 1-tuple. */
  function Flatten(n: Nested): seq<Atom>
    decreases n, 1
  {
    match n
    case Leaf(a) => [a]
    case Tuple(_) => FlattenItems(n, 0)
    case List(_) => FlattenItems(n, 0)
    case Dict(es) =>
      SortEntriesMembers(es);
      FlattenEntries(n, SortEntries(es))
  }

  /** The leaves of the items from position `i` on. */
  function FlattenItems(n: Nested, i: nat): seq<Atom>
    requires (n.Tuple? || n.List?) && i <= |n.items|
    decreases n, 0, |n.items| - i
  {
    if i == |n.items| then [] else Flatten(n.items[i]) + FlattenItems(n, i + 1)
  }

  /** For every entry in the given order, the key's leaves followed by the value's. */
  function FlattenEntries(n: Nested, es: seq<Entry<Nested>>): seq<Atom>
    requires n.Dict? && forall e :: e in es ==> e in n.entries
    decreases n, 0, |es|
  {
    if |es| == 0 then []
    else
      assert es[0] in n.entries;
      [Str(es[0].0)] + Flatten(es[0].1) + FlattenEntries(n, es[1..])
  }

  /** Tuple and list items flatten in order: the items of `a + b` give `a`'s leaves, then `b`'s. */
  lemma FlattenConcat(a: seq<Nested>, b: seq<Nested>)
    ensures Flatten(Tuple(a + b)) == Flatten(Tuple(a)) + Flatten(Tuple(b))
    ensures Flatten(List(a)) == Flatten(Tuple(a))
  {
    FlattenItemsConcat(a, b, 0);
    FlattenItemsListTuple(a, 0);
  }

  lemma {:induction false} FlattenItemsConcat(a: seq<Nested>, b: seq<Nested>, i: nat)
    requires i <= |a|
    ensures FlattenItems(Tuple(a + b), i) == FlattenItems(Tuple(a), i) + FlattenItems(Tuple(b), 0)
    decreases |a| - i
  {
    if i < |a| {
      FlattenItemsConcat(a, b, i + 1);
      assert (a + b)[i] == a[i];
    } else {
      FlattenItemsShift(a, b, 0);
    }
  }

  lemma {:induction false} FlattenItemsShift(a: seq<Nested>, b: seq<Nested>, j: nat)
    requires j <= |b|
    ensures FlattenItems(Tuple(a + b), |a| + j) == FlattenItems(Tuple(b), j)
    decreases |b| - j
  {
    if j < |b| {
      FlattenItemsShift(a, b, j + 1);
      var n := Tuple(a + b);
      assert n.items[|a| + j] == b[j];
      assert FlattenItems(n, |a| + j) == Flatten(b[j]) + FlattenItems(n, |a| + j + 1);
      assert FlattenItems(Tuple(b), j) == Flatten(b[j]) + FlattenItems(Tuple(b), j + 1);
    }
  }

  lemma {:induction false} FlattenItemsListTuple(a: seq<Nested>, i: nat)
    requires i <= |a|
    ensures FlattenItems(List(a), i) == FlattenItems(Tuple(a), i)
    decreases |a| - i
  {
    if i < |a| {
      FlattenItemsListTuple(a, i + 1);
    }
  }

  /** The tuple of leaves holding the given atoms. */
  function Leaves(atoms: seq<Atom>): (t: seq<Nested>)
    ensures |t| == |atoms| && forall i :: 0 <= i < |t| ==> t[i] == Leaf(atoms[i])
  {
    seq(|atoms|, i requires 0 <= i < |atoms| => Leaf(atoms[i]))
  }

  lemma {:induction false} FlattenLeavesFrom(atoms: seq<Atom>, i: nat)
    requires i <= |atoms|
    ensures FlattenItems(Tuple(Leaves(atoms)), i) == atoms[i..]
    decreases |atoms| - i
  {
    if i < |atoms| {
      FlattenLeavesFrom(atoms, i + 1);
      assert atoms[i..] == [atoms[i]] + atoms[i + 1..];
    }
  }

  /** A tuple that is already flat is returned unchanged. */
  lemma FlatTupleUnchanged(atoms: seq<Atom>)
    ensures Flatten(Tuple(Leaves(atoms))) == atoms
  {
    FlattenLeavesFrom(atoms, 0);
  }

  /** Flattening is idempotent: the leaves of a flattened structure flatten to themselves. */
  lemma FlattenIdempotent(n: Nested)
    ensures Flatten(Tuple(Leaves(Flatten(n)))) == Flatten(n)
  {
    FlatTupleUnchanged(Flatten(n));
  }

  lemma {:induction false} FlattenEntriesAnyParent(n: Nested, m: Nested, es: seq<Entry<Nested>>)
    requires n.Dict? && forall e :: e in es ==> e in n.entries
    requires m.Dict? && forall e :: e in es ==> e in m.entries
    ensures FlattenEntries(n, es) == FlattenEntries(m, es)
    decreases |es|
  {
    if |es| > 0 {
      FlattenEntriesAnyParent(n, m, es[1..]);
    }
  }

  /**
   * A dict flattens in ascending key order, so dicts holding the same entries flatten alike
   * whatever their insertion order.
   */
  lemma DictInsertionOrderIrrelevant(es: seq<Entry<Nested>>, fs: seq<Entry<Nested>>)
    requires DistinctKeys(es) && multiset(es) == multiset(fs)
    ensures Flatten(Dict(es)) == Flatten(Dict(fs))
  {
    SortEntriesSorted(es);
    SortEntriesSorted(fs);
    SortEntriesDistinct(es);
    SortedArrangementUnique(SortEntries(es), SortEntries(fs));
    var sorted := SortEntries(es);
    assert sorted == SortEntries(fs);
    forall e | e in sorted ensures e in es && e in fs {
      assert e in multiset(sorted);
    }
    FlattenEntriesAnyParent(Dict(es), Dict(fs), sorted);
    assert Flatten(Dict(es)) == FlattenEntries(Dict(es), sorted);
    assert Flatten(Dict(fs)) == FlattenEntries(Dict(fs), sorted);
  }

  /** A dict entry contributes its key first and then its value's leaves. */
  lemma SingleEntryKeyFirst(k: string, v: Nested)
    ensures Flatten(Dict([(k, v)])) == [Str(k)] + Flatten(v)
  {
    var e := (k, v);
    assert [e][..0] == [];
    assert SortEntries([e]) == [e];
    var n := Dict([e]);
    assert FlattenEntries(n, [e]) == [Str(k)] + Flatten(v) + FlattenEntries(n, []);
  }

  // ---------------------------------------------------------------------------------------------
  // infer_tuple

  /** The argument of `infer_tuple`: `None`, an int, or a tuple whose items may be `None`. */
  datatype Spec = NoneSpec | IntSpec(v: int) | TupleSpec(items: seq<Option<int>>)

  /** Python truthiness of a tuple item: `None` and `0` are false. */
  predicate Truthy(item: Option<int>)
  {
    item.Some? && item.value != 0
  }

  /** The Python exceptions these helpers raise. */
  datatype PyError = IndexError | KeyError

  /** `infer_tuple(value, default)`. */
  function InferTuple(value: Spec, default: seq<int>): (r: Result<seq<int>, PyError>)
    ensures value.NoneSpec? ==> r == Ok(default)
    ensures value.IntSpec? ==> r == Ok([value.v, value.v, value.v])
    ensures value.TupleSpec? ==>
      (r.Err? <==> exists i :: 0 <= i < |value.items| && !Truthy(value.items[i]) && i >= |default|)
    ensures value.TupleSpec? && r.Ok? ==>
      |r.value| == |value.items| &&
      forall i :: 0 <= i < |value.items| ==>
        r.value[i] == (if Truthy(value.items[i]) then value.items[i].value else default[i])
  {
    match value
    case NoneSpec => Ok(default)
    case IntSpec(v) => Ok([v, v, v])
    case TupleSpec(items) =>
      if exists i :: 0 <= i < |items| && !Truthy(items[i]) && i >= |default| then Err(IndexError)
      else Ok(seq(|items|, i requires 0 <= i < |items| => if Truthy(items[i]) then items[i].value else default[i]))
  }

  /** The tuple of present items holding the given values. */
  function Present(vs: seq<int>): (t: seq<Option<int>>)
    ensures |t| == |vs| && forall i :: 0 <= i < |t| ==> t[i] == Some(vs[i])
  {
    seq(|vs|, i requires 0 <= i < |vs| => Some(vs[i]))
  }

  /** Filling is idempotent: a filled tuple, passed again with the same default, comes back unchanged. */
  lemma InferTupleIdempotent(value: Spec, default: seq<int>)
    requires value.TupleSpec? && InferTuple(value, default).Ok?
    ensures InferTuple(TupleSpec(Present(InferTuple(value, default).value)), default) == InferTuple(value, default)
  {
    var r := InferTuple(value, default).value;
    var again := InferTuple(TupleSpec(Present(r)), default);
    forall i | 0 <= i < |r| && !Truthy(Present(r)[i]) ensures i < |default| && default[i] == r[i] {
    }
    assert again.Ok?;
    assert again.value == r;
  }

  /** Only falsy items are filled: a tuple of non-zero ints is kept as it is. */
  lemma InferTupleKeepsTruthy(vs: seq<int>, default: seq<int>)
    requires forall i :: 0 <= i < |vs| ==> vs[i] != 0
    ensures InferTuple(TupleSpec(Present(vs)), default) == Ok(vs)
  {
    var r := InferTuple(TupleSpec(Present(vs)), default);
    assert r.Ok?;
    assert r.value == vs;
  }

  /** An explicit `0` is falsy and is replaced by the default, like `None`. */
  lemma InferTupleReplacesZero()
    ensures InferTuple(TupleSpec([Some(0), None, Some(3)]), [7, 8, 9]) == Ok([7, 8, 3])
  {
    var r := InferTuple(TupleSpec([Some(0), None, Some(3)]), [7, 8, 9]);
    assert r.Ok?;
    assert r.value == [7, 8, 3];
  }

  // ---------------------------------------------------------------------------------------------
  // IndexedDict

  /** A key of an `IndexedDict`: an int or a string. */
  datatype Key = IntKey(i: int) | StrKey(s: string)

  /** `OrderedDict.__getitem__`: the value stored under the key. */
  function Lookup<V>(d: seq<(Key, V)>, key: Key): (r: Result<V, PyError>)
    ensures r.Ok? <==> exists i :: 0 <= i < |d| && d[i].0 == key
    ensures r.Ok? ==> exists i :: 0 <= i < |d| && d[i] == (key, r.value)
    ensures r.Err? ==> r.error == KeyError
  {
    if |d| == 0 then Err(KeyError)
    else if d[0].0 == key then Ok(d[0].1)
    else
      var r := Lookup(d[1..], key);
      assert forall i :: 1 <= i < |d| ==> d[i] == d[1..][i - 1];
      assert r.Ok? ==> exists i :: 0 <= i < |d[1..]| && d[1..][i] == (key, r.value);
      r
  }

  /**
   * `IndexedDict.__getitem__`: an int subscript is first replaced by the key at that position of
   * `list(self.keys())`, negative positions counting from the end.
   */
  function GetItem<V>(d: seq<(Key, V)>, key: Key): Result<V, PyError>
  {
    match key
    case IntKey(i) =>
      if -|d| <= i < |d| then Lookup(d, d[if i < 0 then i + |d| else i].0) else Err(IndexError)
    case StrKey(_) => Lookup(d, key)
  }

  /** An int subscript reads the value at that position, or fails with `IndexError` out of range. */
  lemma GetItemByPosition<V>(d: seq<(Key, V)>, i: int)
    requires DistinctKeys(d)
    ensures -|d| <= i < |d| ==> GetItem(d, IntKey(i)) == Ok(d[if i < 0 then i + |d| else i].1)
    ensures !(-|d| <= i < |d|) ==> GetItem(d, IntKey(i)) == Err(IndexError)
  {
    if -|d| <= i < |d| {
      var p := if i < 0 then i + |d| else i;
      var r := Lookup(d, d[p].0);
      var k :| 0 <= k < |d| && d[k] == (d[p].0, r.value);
      assert k == p;
    }
  }

  /** A string subscript reads the value stored under that key, or fails with `KeyError`. */
  lemma GetItemByKey<V>(d: seq<(Key, V)>, s: string, k: nat)
    requires DistinctKeys(d) && k < |d| && d[k].0 == StrKey(s)
    ensures GetItem(d, StrKey(s)) == Ok(d[k].1)
  {
    var r := Lookup(d, StrKey(s));
    var j :| 0 <= j < |d| && d[j] == (StrKey(s), r.value);
    assert j == k;
  }

  /** Integer keys are shadowed by positions: `{5: v}` subscripted with 5 raises `IndexError`. */
  lemma IntKeysShadowed<V>(v: V)
    ensures Lookup([(IntKey(5), v)], IntKey(5)) == Ok(v)
    ensures GetItem([(IntKey(5), v)], IntKey(5)) == Err(IndexError)
  {
  }
}
