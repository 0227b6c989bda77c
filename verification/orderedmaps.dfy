/**
 * A JavaScript `Map` as the list of its entries in insertion order. `set` on
 * a present key replaces the value where the key already stands; `set` on an
 * absent key appends; `get` finds the entry of a key.
 */
module OrderedMaps {
  import opened Results

  type OMap<K, V> = seq<(K, V)>

  /** `Array.from(m.keys())`. */
  function Keys<K, V>(m: OMap<K, V>): (ks: seq<K>)
    ensures |ks| == |m|
    ensures forall i :: 0 <= i < |m| ==> ks[i] == m[i].0
  {
    if m == [] then [] else [m[0].0] + Keys(m[1..])
  }

  /** `Array.from(m.values())`. */
  function Values<K, V>(m: OMap<K, V>): (vs: seq<V>)
    ensures |vs| == |m|
    ensures forall i :: 0 <= i < |m| ==> vs[i] == m[i].1
  {
    if m == [] then [] else [m[0].1] + Values(m[1..])
  }

  predicate Distinct<T(==)>(s: seq<T>) {
    forall i, j :: 0 <= i < j < |s| ==> s[i] != s[j]
  }

  /** `m.get(k)`, with `None` for `undefined`. */
  function Get<K(==), V>(m: OMap<K, V>, k: K): (r: Option<V>)
    ensures r.Some? <==> k in Keys(m)
  {
    if m == [] then None
    else if m[0].0 == k then Some(m[0].1)
    else Get(m[1..], k)
  }

  /** A key found by `get` stands in an entry of the map together with the value found. */
  lemma {:induction false} GetIndex<K, V>(m: OMap<K, V>, k: K) returns (i: nat)
    requires Get(m, k).Some?
    ensures i < |m| && m[i] == (k, Get(m, k).value)
  {
    if m[0].0 == k {
      i := 0;
    } else {
      var j := GetIndex(m[1..], k);
      i := j + 1;
    }
  }

  /** `m.set(k, v)`. */
  function Set<K(==), V>(m: OMap<K, V>, k: K, v: V): OMap<K, V>
  {
    if m == [] then [(k, v)]
    else if m[0].0 == k then [(k, v)] + m[1..]
    else [m[0]] + Set(m[1..], k, v)
  }

  /** `if (!m.has(k)) m.set(k, v)`. */
  function PutIfAbsent<K(==), V>(m: OMap<K, V>, k: K, v: V): OMap<K, V>
  {
    if k in Keys(m) then m else m + [(k, v)]
  }

  lemma {:induction false} GetAt<K, V>(m: OMap<K, V>, i: nat)
    requires i < |m| && Distinct(Keys(m))
    ensures Get(m, m[i].0) == Some(m[i].1)
  {
    if i > 0 {
      assert Keys(m[1..])[i - 1] == Keys(m)[i];
      assert Distinct(Keys(m[1..])) by {
        forall a, b | 0 <= a < b < |m| - 1 ensures Keys(m[1..])[a] != Keys(m[1..])[b] {
          assert Keys(m)[a + 1] != Keys(m)[b + 1];
        }
      }
      assert Keys(m)[0] != Keys(m)[i];
      GetAt(m[1..], i - 1);
    }
  }

  /** `set` keeps every key where it stands and appends a new key at the end. */
  lemma {:induction false} SetKeys<K, V>(m: OMap<K, V>, k: K, v: V)
    ensures Keys(Set(m, k, v)) == if k in Keys(m) then Keys(m) else Keys(m) + [k]
  {
    if m != [] {
      var r := Set(m, k, v);
      if m[0].0 == k {
        assert r[1..] == m[1..];
      } else {
        SetKeys(m[1..], k, v);
        assert r[1..] == Set(m[1..], k, v);
        assert k in Keys(m) <==> k in Keys(m[1..]);
      }
    }
  }

  /** After `set`, `get` finds the new value under `k` and the old value under every other key. */
  lemma {:induction false} SetGet<K, V>(m: OMap<K, V>, k: K, v: V, j: K)
    ensures Get(Set(m, k, v), j) == if j == k then Some(v) else Get(m, j)
  {
    if m != [] {
      var r := Set(m, k, v);
      if m[0].0 == k {
        assert r[1..] == m[1..];
      } else {
        SetGet(m[1..], k, v, j);
        assert r[1..] == Set(m[1..], k, v);
      }
    }
  }

  lemma {:induction false} AppendKeys<K, V>(m: OMap<K, V>, k: K, v: V)
    ensures Keys(m + [(k, v)]) == Keys(m) + [k]
  {
  }

  /** Looking a key up after appending a pair finds an older entry first. */
  lemma {:induction false} AppendGet<K, V>(m: OMap<K, V>, k: K, v: V, j: K)
    ensures Get(m + [(k, v)], j) == if j in Keys(m) then Get(m, j) else if j == k then Some(v) else None
    decreases |m|
  {
    if m != [] {
      assert (m + [(k, v)])[1..] == m[1..] + [(k, v)];
      AppendGet(m[1..], k, v, j);
      assert j in Keys(m) <==> j == m[0].0 || j in Keys(m[1..]);
    } else {
      assert Keys([(k, v)]) == [k];
    }
  }

  /**
   * `if (!m.has(k)) m.set(k, v)` has the key order of `set` but leaves a
   * present key's value alone.
   */
  lemma {:induction false} PutIfAbsentKeys<K, V>(m: OMap<K, V>, k: K, v: V)
    ensures Keys(PutIfAbsent(m, k, v)) == Keys(Set(m, k, v))
  {
    SetKeys(m, k, v);
    AppendKeys(m, k, v);
  }

  lemma {:induction false} PutIfAbsentGet<K, V>(m: OMap<K, V>, k: K, v: V, j: K)
    ensures Get(PutIfAbsent(m, k, v), j) == if j == k && k !in Keys(m) then Some(v) else Get(m, j)
  {
    if k !in Keys(m) {
      AppendGet(m, k, v, j);
    }
  }

  /** Both insertions keep the keys of a map distinct. */
  lemma {:induction false} SetDistinct<K, V>(m: OMap<K, V>, k: K, v: V)
    requires Distinct(Keys(m))
    ensures Distinct(Keys(Set(m, k, v)))
    ensures Distinct(Keys(PutIfAbsent(m, k, v)))
  {
    SetKeys(m, k, v);
    PutIfAbsentKeys(m, k, v);
    if k !in Keys(m) {
      DistinctSnoc(Keys(m), k);
    }
  }

  /** Two maps with distinct keys, the same key order and the same lookups are equal. */
  lemma {:induction false} MapsEqual<K, V>(m: OMap<K, V>, n: OMap<K, V>)
    requires Distinct(Keys(m)) && Keys(m) == Keys(n)
    requires forall k :: Get(m, k) == Get(n, k)
    ensures m == n
  {
    forall i | 0 <= i < |m| ensures m[i] == n[i] {
      assert Distinct(Keys(n));
      GetAt(m, i);
      GetAt(n, i);
    }
  }

  // ---------------------------------------------------------------------
  // Folds over key/value lists, and what they compute

  /** `set` of every pair of `kvs` in turn. */
  function SetAll<K(==), V>(m: OMap<K, V>, kvs: seq<(K, V)>): OMap<K, V>
  {
    if kvs == [] then m
    else
      var (k, v) := kvs[|kvs| - 1];
      Set(SetAll(m, kvs[..|kvs| - 1]), k, v)
  }

  /** Every pair of `kvs` in turn, put only when its key is absent. */
  function PutAll<K(==), V>(m: OMap<K, V>, kvs: seq<(K, V)>): OMap<K, V>
  {
    if kvs == [] then m
    else
      var (k, v) := kvs[|kvs| - 1];
      PutIfAbsent(PutAll(m, kvs[..|kvs| - 1]), k, v)
  }

  /** The value of the last pair of `kvs` whose key is `k`. */
  function LastValue<K(==), V>(kvs: seq<(K, V)>, k: K): (r: Option<V>)
    ensures r.Some? <==> k in Keys(kvs)
  {
    if kvs == [] then None
    else if kvs[|kvs| - 1].0 == k then Some(kvs[|kvs| - 1].1)
    else
      assert kvs == kvs[..|kvs| - 1] + [kvs[|kvs| - 1]];
      assert Keys(kvs) == Keys(kvs[..|kvs| - 1]) + [kvs[|kvs| - 1].0];
      LastValue(kvs[..|kvs| - 1], k)
  }

  /** The position of the first occurrence of `x` in `s`. */
  function FirstIndex<T(==)>(s: seq<T>, x: T): (i: nat)
    requires x in s
    ensures i < |s| && s[i] == x
    ensures forall j :: 0 <= j < i ==> s[j] != x
  {
    if s[0] == x then 0 else 1 + FirstIndex(s[1..], x)
  }

  lemma {:induction false} FirstIndexAppend<T>(s: seq<T>, y: T, x: T)
    requires x in s + [y]
    ensures x in s ==> FirstIndex(s + [y], x) == FirstIndex(s, x)
    ensures x !in s ==> FirstIndex(s + [y], x) == |s|
  {
    var i := FirstIndex(s + [y], x);
    if x in s {
      var j := FirstIndex(s, x);
      assert (s + [y])[j] == x;
    }
  }

  /**
   * The keys of `kvs`, each once, in the order of their first occurrence:
   * no key twice, the same keys as `kvs`, and first occurrences in order.
   */
  predicate FirstOccurrenceOrder<K(==)>(r: seq<K>, ks: seq<K>) {
    && Distinct(r)
    && (forall i :: 0 <= i < |r| ==> r[i] in ks)
    && (forall i :: 0 <= i < |ks| ==> ks[i] in r)
    && (forall i, j :: 0 <= i < j < |r| ==> FirstIndex(ks, r[i]) < FirstIndex(ks, r[j]))
  }

  lemma {:induction false} LastSplit<T>(s: seq<T>)
    requires s != []
    ensures s == s[..|s| - 1] + [s[|s| - 1]]
  {
  }

  lemma {:induction false} KeysSnoc<K, V>(kvs: seq<(K, V)>)
    requires kvs != []
    ensures Keys(kvs) == Keys(kvs[..|kvs| - 1]) + [kvs[|kvs| - 1].0]
  {
  }

  /** A sequence of `set` calls on an empty map lists each key once, in the order of its first `set`. */
  lemma {:induction false} SetAllKeys<K, V>(kvs: seq<(K, V)>)
    ensures FirstOccurrenceOrder(Keys(SetAll([], kvs)), Keys(kvs))
  {
    if kvs != [] {
      var init := kvs[..|kvs| - 1];
      var (k, v) := kvs[|kvs| - 1];
      var m := SetAll([], init);
      SetAllKeys(init);
      SetKeys(m, k, v);
      KeysSnoc(kvs);
      SnocOrder(Keys(m), Keys(init), k);
    }
  }

  /** After a sequence of `set` calls on an empty map, each key holds the value of its last `set`. */
  lemma {:induction false} SetAllGet<K, V>(kvs: seq<(K, V)>, j: K)
    ensures Get(SetAll([], kvs), j) == LastValue(kvs, j)
  {
    if kvs != [] {
      var init := kvs[..|kvs| - 1];
      var (k, v) := kvs[|kvs| - 1];
      SetAllGet(init, j);
      SetGet(SetAll([], init), k, v, j);
    }
  }

  /**
   * A sequence of `if (!m.has(k)) m.set(k, v)` calls on an empty map lists
   * the keys in the same order as plain `set` calls would.
   */
  lemma {:induction false} PutAllKeys<K, V>(kvs: seq<(K, V)>)
    ensures Keys(PutAll([], kvs)) == Keys(SetAll([], kvs))
  {
    if kvs != [] {
      var init := kvs[..|kvs| - 1];
      var (k, v) := kvs[|kvs| - 1];
      var m := PutAll([], init);
      PutAllKeys(init);
      PutIfAbsentKeys(m, k, v);
      SetKeys(m, k, v);
      SetKeys(SetAll([], init), k, v);
    }
  }

  /**
   * After a sequence of `if (!m.has(k)) m.set(k, v)` calls on an empty map,
   * each key holds the value of its first occurrence.
   */
  lemma {:induction false} PutAllGet<K, V>(kvs: seq<(K, V)>, j: K)
    ensures Get(PutAll([], kvs), j) == Get(kvs, j)
  {
    if kvs != [] {
      var init := kvs[..|kvs| - 1];
      var (k, v) := kvs[|kvs| - 1];
      var m := PutAll([], init);
      PutAllGet(init, j);
      PutAllGet(init, k);
      PutIfAbsentGet(m, k, v, j);
      LastSplit(kvs);
      AppendGet(init, k, v, j);
    }
  }

  /** Every entry of a map built by `set` calls is one of the pairs set. */
  lemma {:induction false} SetMembers<K, V>(m: OMap<K, V>, k: K, v: V)
    ensures forall i :: 0 <= i < |Set(m, k, v)| ==> Set(m, k, v)[i] in m || Set(m, k, v)[i] == (k, v)
  {
    if m != [] && m[0].0 != k {
      SetMembers(m[1..], k, v);
      assert Set(m, k, v) == [m[0]] + Set(m[1..], k, v);
    }
  }

  lemma {:induction false} SetAllMembers<K, V>(kvs: seq<(K, V)>)
    ensures forall i :: 0 <= i < |SetAll([], kvs)| ==> SetAll([], kvs)[i] in kvs
  {
    if kvs != [] {
      var init := kvs[..|kvs| - 1];
      SetAllMembers(init);
      SetMembers(SetAll([], init), kvs[|kvs| - 1].0, kvs[|kvs| - 1].1);
      assert kvs == init + [kvs[|kvs| - 1]];
    }
  }

  /** Every entry of a map built by `if (!m.has(k)) m.set(k, v)` calls is one of the pairs put. */
  lemma {:induction false} PutAllMembers<K, V>(kvs: seq<(K, V)>)
    ensures forall i :: 0 <= i < |PutAll([], kvs)| ==> PutAll([], kvs)[i] in kvs
  {
    if kvs != [] {
      var init := kvs[..|kvs| - 1];
      var m := PutAll([], init);
      PutAllMembers(init);
      forall i | 0 <= i < |PutAll([], kvs)| ensures PutAll([], kvs)[i] in kvs {
        if i < |m| {
          assert PutAll([], kvs)[i] == m[i];
          var j :| 0 <= j < |init| && init[j] == m[i];
          assert kvs[j] == m[i];
        } else {
          assert PutAll([], kvs)[i] == kvs[|kvs| - 1];
        }
      }
    }
  }

  /** Appending `k` to a key list in first-occurrence order keeps it so. */
  lemma {:induction false} SnocOrder<K>(r: seq<K>, ks: seq<K>, k: K)
    requires FirstOccurrenceOrder(r, ks)
    ensures FirstOccurrenceOrder(if k in r then r else r + [k], ks + [k])
  {
    FirstIndexKeep(ks, k);
    if k in r {
      SnocOrderOld(r, ks, k);
    } else {
      SnocOrderNew(r, ks, k);
    }
  }

  lemma {:induction false} FirstIndexKeep<K>(ks: seq<K>, k: K)
    ensures forall x :: x in ks ==> FirstIndex(ks + [k], x) == FirstIndex(ks, x)
  {
    forall x | x in ks ensures FirstIndex(ks + [k], x) == FirstIndex(ks, x) {
      FirstIndexAppend(ks, k, x);
    }
  }

  lemma {:induction false} SnocOrderOld<K>(r: seq<K>, ks: seq<K>, k: K)
    requires FirstOccurrenceOrder(r, ks) && k in r
    requires forall x :: x in ks ==> FirstIndex(ks + [k], x) == FirstIndex(ks, x)
    ensures FirstOccurrenceOrder(r, ks + [k])
  {
    forall i, j | 0 <= i < j < |r| ensures FirstIndex(ks + [k], r[i]) < FirstIndex(ks + [k], r[j]) {
      assert r[i] in ks && r[j] in ks;
    }
  }

  lemma {:induction false} SnocOrderNew<K>(r: seq<K>, ks: seq<K>, k: K)
    requires FirstOccurrenceOrder(r, ks) && k !in r
    requires forall x :: x in ks ==> FirstIndex(ks + [k], x) == FirstIndex(ks, x)
    ensures FirstOccurrenceOrder(r + [k], ks + [k])
  {
    var r' := r + [k];
    assert k !in ks;
    FirstIndexAppend(ks, k, k);
    forall i, j | 0 <= i < j < |r'| ensures FirstIndex(ks + [k], r'[i]) < FirstIndex(ks + [k], r'[j]) {
      assert r'[i] == r[i] && r[i] in ks;
      if j < |r| {
        assert r'[j] == r[j] && r[j] in ks;
      }
    }
    DistinctSnoc(r, k);
  }

  lemma {:induction false} DistinctSnoc<T>(s: seq<T>, x: T)
    requires Distinct(s) && x !in s
    ensures Distinct(s + [x])
  {
  }

  /** Putting the pairs of a map with distinct keys into an empty map rebuilds it. */
  lemma {:induction false} PutAllDistinct<K, V>(kvs: seq<(K, V)>)
    requires Distinct(Keys(kvs))
    ensures PutAll([], kvs) == kvs
  {
    if kvs != [] {
      var init := kvs[..|kvs| - 1];
      KeysSnoc(kvs);
      assert Keys(init) == Keys(kvs)[..|kvs| - 1];
      PutAllDistinct(init);
      assert kvs[|kvs| - 1].0 !in Keys(init) by {
        forall i | 0 <= i < |init| ensures Keys(init)[i] != kvs[|kvs| - 1].0 {
          assert Keys(kvs)[i] != Keys(kvs)[|kvs| - 1];
        }
      }
      assert init + [kvs[|kvs| - 1]] == kvs;
    }
  }

  // ---------------------------------------------------------------------
  // Skipped items

  /** The pairs present in `xs`, in order: a loop that skips some items and keys the others. */
  function Somes<K, V>(xs: seq<Option<(K, V)>>): (ps: seq<(K, V)>)
    ensures |ps| <= |xs|
  {
    if xs == [] then [] else (if xs[0].Some? then [xs[0].value] else []) + Somes(xs[1..])
  }

  /** Item `i` is present and no present item before it has the same key. */
  predicate FirstPresent<K(==), V>(xs: seq<Option<(K, V)>>, i: int) {
    && 0 <= i < |xs|
    && xs[i].Some?
    && forall j :: 0 <= j < i && xs[j].Some? ==> xs[j].value.0 != xs[i].value.0
  }

  lemma {:induction false} SomesCons<K, V>(xs: seq<Option<(K, V)>>)
    requires xs != []
    ensures xs[0].Some? ==> Somes(xs) == [xs[0].value] + Somes(xs[1..])
    ensures xs[0].None? ==> Somes(xs) == Somes(xs[1..])
  {
    if xs[0].None? {
      assert [] + Somes(xs[1..]) == Somes(xs[1..]);
    }
  }

  lemma {:induction false} GetCons<K, V>(p: (K, V), m: OMap<K, V>, k: K)
    ensures Get([p] + m, k) == if p.0 == k then Some(p.1) else Get(m, k)
  {
    assert ([p] + m)[1..] == m;
  }

  /** Every pair kept is one of the items. */
  lemma {:induction false} SomesMember<K, V>(xs: seq<Option<(K, V)>>, p: (K, V)) returns (j: int)
    requires p in Somes(xs)
    ensures 0 <= j < |xs| && xs[j] == Some(p)
  {
    if xs[0] == Some(p) {
      j := 0;
    } else {
      assert p in Somes(xs[1..]);
      var k := SomesMember(xs[1..], p);
      j := k + 1;
    }
  }

  /** Looking a key up finds the value of its first present item. */
  lemma {:induction false} SomesFirst<K, V>(xs: seq<Option<(K, V)>>, i: int)
    requires FirstPresent(xs, i)
    ensures Get(Somes(xs), xs[i].value.0) == Some(xs[i].value.1)
    decreases |xs|
  {
    var rest := xs[1..];
    SomesCons(xs);
    if xs[0].Some? {
      GetCons(xs[0].value, Somes(rest), xs[i].value.0);
    }
    if i > 0 {
      assert FirstPresent(rest, i - 1) by {
        forall j | 0 <= j < i - 1 && rest[j].Some? ensures rest[j].value.0 != rest[i - 1].value.0 {
          assert rest[j] == xs[j + 1];
        }
      }
      SomesFirst(rest, i - 1);
      assert rest[i - 1] == xs[i];
    }
  }

  /** A key that is found comes from its first present item. */
  lemma {:induction false} SomesSource<K, V>(xs: seq<Option<(K, V)>>, k: K) returns (i: int)
    requires Get(Somes(xs), k).Some?
    ensures FirstPresent(xs, i) && xs[i].value.0 == k
    ensures Get(Somes(xs), k) == Some(xs[i].value.1)
    decreases |xs|
  {
    var rest := xs[1..];
    SomesCons(xs);
    if xs[0].Some? {
      GetCons(xs[0].value, Somes(rest), k);
    }
    if xs[0].Some? && xs[0].value.0 == k {
      i := 0;
    } else {
      var j := SomesSource(rest, k);
      i := j + 1;
      assert xs[i] == rest[j];
      forall l | 0 <= l < i && xs[l].Some? ensures xs[l].value.0 != xs[i].value.0 {
        if l > 0 {
          assert xs[l] == rest[l - 1];
        }
      }
    }
  }

  /** With no item skipped, every item is kept. */
  lemma {:induction false} SomesAll<K, V>(xs: seq<Option<(K, V)>>)
    requires forall i :: 0 <= i < |xs| ==> xs[i].Some?
    ensures Somes(xs) == seq(|xs|, i requires 0 <= i < |xs| => xs[i].value)
    decreases |xs|
  {
    if xs != [] {
      SomesAll(xs[1..]);
    }
  }
}
