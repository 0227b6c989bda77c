/**
 * Clue lists as the clue worker stores them: every clue present, trimmed and
 * with a non-empty key, and no two clues with the same key.
 */
module ClueLists {
  import opened Results
  import opened Text
  import opened Clues
  import opened OrderedMaps

  /** A clue that `dedupeEntries` does not skip: present, non-empty, with a non-empty key. */
  predicate Kept(o: Option<string>) {
    o.Some? && o.value != [] && NormalizeClue(o.value) != []
  }

  /** A stored pair: the key of a kept, trimmed clue, and the clue. */
  predicate GoodPair(p: (string, string)) {
    p.0 == NormalizeClue(p.1) && Kept(Some(p.1)) && Trim(p.1) == p.1
  }

  /** The keys of a clue list, in order. */
  function KeysOf(clues: seq<string>): (ks: seq<string>)
    ensures |ks| == |clues|
    ensures forall i :: 0 <= i < |ks| ==> ks[i] == NormalizeClue(clues[i])
  {
    seq(|clues|, i requires 0 <= i < |clues| => NormalizeClue(clues[i]))
  }

  /**
   * A clue list as the worker stores it: every clue kept and trimmed, and no
   * two clues with the same key.
   */
  predicate Deduplicated(clues: seq<string>) {
    && (forall i :: 0 <= i < |clues| ==> Kept(Some(clues[i])) && Trim(clues[i]) == clues[i])
    && Distinct(KeysOf(clues))
  }

  /** The values of a map of stored pairs with distinct keys form a deduplicated list. */
  lemma {:induction false} GoodMapDeduplicated(m: OMap<string, string>)
    requires Distinct(Keys(m))
    requires forall i :: 0 <= i < |m| ==> GoodPair(m[i])
    ensures Deduplicated(Values(m))
  {
    GoodMapValues(m);
    GoodMapKeys(m);
  }

  lemma {:induction false} GoodMapValues(m: OMap<string, string>)
    requires forall i :: 0 <= i < |m| ==> GoodPair(m[i])
    ensures forall i :: 0 <= i < |m| ==> Kept(Some(Values(m)[i])) && Trim(Values(m)[i]) == Values(m)[i]
  {
  }

  lemma {:induction false} GoodMapKeys(m: OMap<string, string>)
    requires Distinct(Keys(m))
    requires forall i :: 0 <= i < |m| ==> GoodPair(m[i])
    ensures Distinct(KeysOf(Values(m)))
  {
    GoodMapKeyList(m);
  }

  lemma {:induction false} GoodMapKeyList(m: OMap<string, string>)
    requires forall i :: 0 <= i < |m| ==> GoodPair(m[i])
    ensures KeysOf(Values(m)) == Keys(m)
  {
  }
}

/**
 * `dedupeEntries` of the clue worker: each word's clues are reduced to the
 * first clue of every normalised key, trimmed, in order of first appearance.
 */
module ClueDedupe {
  import opened Results
  import opened Text
  import opened Clues
  import opened OrderedMaps
  import opened WordList
  import opened ClueLists

  /**
   * One item of `payload.entries`: a word and its clue list. The list may be
   * missing (`clues ?? []`) and each clue may be `null` or empty.
   */
  datatype RawEntry = RawEntry(word: string, clues: Option<seq<Option<string>>>)

  /** Clue `i` is kept and no kept clue before it has the same key. */
  predicate FirstOfKey(clues: seq<Option<string>>, i: int) {
    && 0 <= i < |clues|
    && Kept(clues[i])
    && forall j :: 0 <= j < i && Kept(clues[j]) ==> NormalizeClue(clues[j].value) != NormalizeClue(clues[i].value)
  }

  /** What one turn of the clue loop of `dedupeEntries` makes of a clue: nothing, or its key and trimmed text. */
  function KeyOf(o: Option<string>): (r: Option<(string, string)>)
    ensures r.Some? <==> Kept(o)
    ensures r.Some? ==> r.value == (NormalizeClue(o.value), Trim(o.value)) && GoodPair(r.value)
  {
    if Kept(o) then
      NormalizeTrim(o.value);
      TrimIdempotent(o.value);
      Some((NormalizeClue(o.value), Trim(o.value)))
    else None
  }

  function Keyed(clues: seq<Option<string>>): (xs: seq<Option<(string, string)>>)
    ensures |xs| == |clues|
    ensures forall i :: 0 <= i < |xs| ==> xs[i] == KeyOf(clues[i])
  {
    seq(|clues|, i requires 0 <= i < |clues| => KeyOf(clues[i]))
  }

  /** The `(normalizeClue(clue), clue.trim())` pairs of the kept clues, in order. */
  function ClueKeys(clues: seq<Option<string>>): (ps: seq<(string, string)>)
    ensures forall i :: 0 <= i < |ps| ==> GoodPair(ps[i])
  {
    KeyedPairs(clues);
    Somes(Keyed(clues))
  }

  lemma {:induction false} KeyedPairs(clues: seq<Option<string>>)
    ensures forall i :: 0 <= i < |Somes(Keyed(clues))| ==> GoodPair(Somes(Keyed(clues))[i])
  {
    var xs := Keyed(clues);
    var ps := Somes(xs);
    forall i | 0 <= i < |ps| ensures GoodPair(ps[i]) {
      var j := SomesMember(xs, ps[i]);
    }
  }

  /** Clue `i` is the first of its key exactly when its keyed item is the first of its key. */
  lemma {:induction false} FirstOfKeyPresent(clues: seq<Option<string>>, i: int)
    ensures FirstOfKey(clues, i) <==> FirstPresent(Keyed(clues), i)
  {
  }

  /**
   * The clue list `dedupeEntries` makes for one word: a `Map` from key to
   * trimmed clue that only the first clue of each key sets, read back as
   * its values.
   */
  function DedupeClues(clues: seq<Option<string>>): seq<string> {
    Values(PutAll([], ClueKeys(clues)))
  }

  /** `dedupeEntries` on one entry: the word unchanged, the clues deduplicated. */
  function DedupeEntry(e: RawEntry): (r: Entry)
    ensures r.0 == e.word && Deduplicated(r.1)
  {
    var clues := e.clues.OrElse([]);
    DedupeCluesDeduplicated(clues);
    (e.word, DedupeClues(clues))
  }

  /** `dedupeEntries`: one entry out per entry in, in the same order. */
  function Dedupe(list: seq<RawEntry>): (r: seq<Entry>)
    ensures |r| == |list|
    ensures forall i :: 0 <= i < |r| ==> r[i].0 == list[i].word && Deduplicated(r[i].1)
  {
    seq(|list|, i requires 0 <= i < |list| => DedupeEntry(list[i]))
  }

  // ---------------------------------------------------------------------
  // What deduplication keeps

  /** The map `dedupeEntries` builds has distinct keys, each the key of its clue. */
  lemma {:induction false} DedupeMap(clues: seq<Option<string>>)
    ensures var m := PutAll([], ClueKeys(clues));
      && FirstOccurrenceOrder(Keys(m), Keys(ClueKeys(clues)))
      && forall i :: 0 <= i < |m| ==> m[i] in ClueKeys(clues)
  {
    var ps := ClueKeys(clues);
    PutAllKeys(ps);
    SetAllKeys(ps);
    PutAllMembers(ps);
  }

  /** The map `dedupeEntries` builds holds stored pairs only. */
  lemma {:induction false} DedupeMapPairs(clues: seq<Option<string>>)
    ensures forall i :: 0 <= i < |PutAll([], ClueKeys(clues))| ==> GoodPair(PutAll([], ClueKeys(clues))[i])
  {
    var ps := ClueKeys(clues);
    var m := PutAll([], ps);
    PutAllMembers(ps);
    forall i | 0 <= i < |m| ensures GoodPair(m[i]) {
      var k :| 0 <= k < |ps| && ps[k] == m[i];
    }
  }

  /**
   * Every stored clue is kept and trimmed, and no two stored clues share a
   * key; their keys come in the order in which the keys first appear among
   * the kept clues.
   */
  lemma {:induction false} DedupeCluesDeduplicated(clues: seq<Option<string>>)
    ensures Deduplicated(DedupeClues(clues))
    ensures FirstOccurrenceOrder(KeysOf(DedupeClues(clues)), Keys(ClueKeys(clues)))
  {
    var m := PutAll([], ClueKeys(clues));
    DedupeMap(clues);
    DedupeMapPairs(clues);
    GoodMapDeduplicated(m);
    GoodMapKeyList(m);
  }

  /** The trimmed first clue of every key is stored. */
  lemma {:induction false} DedupeKeepsFirst(clues: seq<Option<string>>, i: int)
    requires FirstOfKey(clues, i)
    ensures Trim(clues[i].value) in DedupeClues(clues)
  {
    var ps := ClueKeys(clues);
    var m := PutAll([], ps);
    var key := NormalizeClue(clues[i].value);
    FirstOfKeyPresent(clues, i);
    SomesFirst(Keyed(clues), i);
    PutAllGet(ps, key);
    var k := GetIndex(m, key);
    assert Values(m)[k] == Trim(clues[i].value);
  }

  /** Every stored clue is the trimmed first clue of its key: later clues with a known key are dropped. */
  lemma {:induction false} DedupeOnlyFirst(clues: seq<Option<string>>, t: string)
    requires t in DedupeClues(clues)
    ensures exists i :: FirstOfKey(clues, i) && t == Trim(clues[i].value)
  {
    var ps := ClueKeys(clues);
    var m := PutAll([], ps);
    DedupeMap(clues);
    var a :| 0 <= a < |m| && Values(m)[a] == t;
    GetAt(m, a);
    PutAllGet(ps, m[a].0);
    var i := SomesSource(Keyed(clues), m[a].0);
    FirstOfKeyPresent(clues, i);
  }

  // ---------------------------------------------------------------------
  // Deduplicating a stored list changes nothing

  /** A stored clue list handed back to the worker: every clue present. */
  function Wrap(clues: seq<string>): (r: seq<Option<string>>)
    ensures |r| == |clues|
    ensures forall i :: 0 <= i < |r| ==> r[i] == Some(clues[i])
  {
    seq(|clues|, i requires 0 <= i < |clues| => Some(clues[i]))
  }

  /** The entries of a reply, sent back to the worker as an `init` payload. */
  function Reload(list: seq<Entry>): (r: seq<RawEntry>)
    ensures |r| == |list|
    ensures forall i :: 0 <= i < |r| ==> r[i] == RawEntry(list[i].0, Some(Wrap(list[i].1)))
  {
    seq(|list|, i requires 0 <= i < |list| => RawEntry(list[i].0, Some(Wrap(list[i].1))))
  }

  function Pairs(clues: seq<string>): (ps: seq<(string, string)>)
    ensures |ps| == |clues|
    ensures forall i :: 0 <= i < |ps| ==> ps[i] == (NormalizeClue(clues[i]), clues[i])
  {
    seq(|clues|, i requires 0 <= i < |clues| => (NormalizeClue(clues[i]), clues[i]))
  }

  lemma {:induction false} ClueKeysWrap(clues: seq<string>)
    requires forall i :: 0 <= i < |clues| ==> Kept(Some(clues[i])) && Trim(clues[i]) == clues[i]
    ensures ClueKeys(Wrap(clues)) == Pairs(clues)
  {
    var xs := Keyed(Wrap(clues));
    SomesAll(xs);
  }

  /** A deduplicated clue list is its own deduplication. */
  lemma {:induction false} DedupeFixed(clues: seq<string>)
    requires Deduplicated(clues)
    ensures DedupeClues(Wrap(clues)) == clues
  {
    ClueKeysWrap(clues);
    var ps := Pairs(clues);
    assert Distinct(Keys(ps));
    PutAllDistinct(ps);
  }

  /** Initialising the worker with its own entries stores the same entries again. */
  lemma {:induction false} DedupeIdempotent(list: seq<RawEntry>)
    ensures Dedupe(Reload(Dedupe(list))) == Dedupe(list)
  {
    var d := Dedupe(list);
    forall i | 0 <= i < |d| ensures Dedupe(Reload(d))[i] == d[i] {
      DedupeFixed(d[i].1);
    }
  }
}
